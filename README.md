# libnode core: codecs, query strings, incoming HTTP messages, net server

A Dafny model of four sequential pieces of libnode, a C++ port of the
Node.js runtime API built on libuv:

- **`util` codecs** (`src/util.cpp`): lower-case hex encoding of buffers
  and its decoder, and the pointer-walking percent encoder and decoder
  with their length budget, plus their String wrappers.
- **`querystring`** (`src/querystring.cpp`): `parse`, which scans a query
  byte by byte and builds an object whose repeated keys are promoted from
  a string to an array, and `stringify`, which joins an object's entries
  back into `key=value` pairs.
- **`http::IncomingMessage`** (`src/http/incoming_message.h`): header
  folding in `addHeaderLine`, the message flags, `emitData`, the
  idempotent `emitEnd`, and the pending-chunk pump that a `data` listener
  can stop with `pause()`.
- **`net::ServerImpl`** (`src/net/server_impl.h`): `listen`, `close`,
  `emitCloseIfDrained`, `ref`/`unref`, handle creation and the accept
  handler, over a FIFO of `process::nextTick` tasks.

Files: `wrappers.dfy` (the `Option` type standing for nullable pointers),
`seqs.dfy` (module `Seqs`: small facts about sequences), `util.dfy` (module `Util`), `querystring.dfy` (module `QueryString`),
`querystring_roundtrip.dfy` (module `QueryStringRoundTrip`: parse undoes
stringify), `incoming_message.dfy` (module `Http`), `net.dfy` (module
`Net`).

How the model is built:

- Bytes are integers in `0..255`; the percent codec and the query string
  work on byte strings, the hex codec produces and reads `string`. The
  C++ `Size` is a 64-bit unsigned word (`Util.Size`), and every decrement
  of the percent encoder's budget wraps around as unsigned arithmetic does.
- Each stateful C++ class is a Dafny class with the same fields. Every
  method is proved against a pure function of the old state (`State() ==
  AfterX(old(State()), ...)`), and the properties are lemmas about those
  functions, so that several operations can be composed (`Run` in `Net`,
  `AfterAddHeaderLines` and `PumpFrom` in `Http`).
- Events a class emits are appended to an event log; the tasks it hands to
  `process::nextTick` are kept in a FIFO (`ticks`). What the reactor
  answers (bind and listen status, the type of an accepted client, the
  last error) and what a `data` listener does (call `pause()`) are
  parameters. The StringDecoder is an abstract step function from
  (encoding, carried bytes, new bytes) to (text, carried bytes).
- A `JsObject` is its key list in `keySet()` order plus a map. libj's
  JsObject is not part of this model: the model assumes that a key put for
  the first time goes last and that re-putting a key keeps its place (see
  "Left out").

Where the code differs from what the Node.js API it ports documents, the
model follows the code:

- A second `listen` on a server that still has a handle is not refused:
  it reuses the handle, installs the accept handler again and listens
  again (`Net.ListenReusesHandle`, `Net.ListenTwice`).
- `connections_` is only ever incremented in `server_impl.h`; nothing shown
  decrements it. So once a connection has been accepted, no sequence of
  operations schedules `close` again (`Net.NoCloseWhileConnected`).
- In `createServerHandle`, a pipe made for port and address type both -1
  still goes through the bind branch (`-1` is a non-zero port), through a
  cast to a TCP handle; the model logs that bind on the pipe handle.
- `stringify` renders through the percent encoder as written, which can
  cut an escape short, so parse does not always undo it
  (`QueryStringRoundTrip.StringifyTwoSpacesLosesOne`); the round trip is
  proved for the corrected encoder and, for the encoder as written, for
  objects whose keys and strings it encodes in full.
- Trailer lines fold into the value found in the **headers**, not into an
  earlier trailer (`Http.TrailerLinesFoldFromHeaders`).

## Model

| member | source | states |
|---|---|---|
| `Util.Dec` | src/util.cpp:209-229 | `--` on an unsigned word: one less modulo 2^64, so one less, or the largest word when it was 0 |
| `Util.Sub` | src/util.cpp:226 | `-= k` on an unsigned word, modulo 2^64 |
| `Util.LowerHexDigit` | src/util.cpp:63-68 | a nibble becomes a lower-case hex digit that decodeHex maps back to the nibble |
| `Util.DecodeHex` | src/util.cpp:73-85 | decodeHex succeeds exactly on `0-9a-f` (upper case refused), gives a value below 16, and that value's digit is the input |
| `Util.HexOf` | src/util.cpp:56-71 | the hex text of a buffer is twice as long as the buffer |
| `Util.HexOfPairs` | src/util.cpp:61-69 | byte k is written at positions 2k (high nibble) and 2k+1 (low nibble) |
| `Util.HexOfChars` | src/util.cpp:65-68 | the hex text uses only `0-9a-f` |
| `Util.HexValue` | src/util.cpp:87-104 | an even-length text decodes iff every character is in `0-9a-f`; the result is half as long |
| `Util.HexValuePairs` | src/util.cpp:93-98 | each decoded byte is 16 × the pair's first digit + its second digit |
| `Util.HexEncodeData` | src/util.cpp:56-71 | a null pointer gives null; otherwise the for loop fills a buffer of 2n characters with the hex text |
| `Util.HexEncode` | src/util.cpp:44-54 | null buffer gives null, an empty buffer the empty string, any other its hex text of twice its length |
| `Util.HexDecode` | src/util.cpp:87-104 | null for a null or odd-length string or any character outside `0-9a-f`; otherwise the decoded pairs |
| `Util.HexRoundTrip` | src/util.cpp:56-104 | hexDecode(hexEncode(b)) == b for every byte sequence |
| `Util.HexCanonical` | src/util.cpp:73-104 | any text that decodes is exactly the encoding of what it decodes to |
| `Util.HexCharFromValue` | src/util.cpp:193-197 | hexCharFromValue is '0' from 16 on, otherwise the entry of "0123456789ABCDEF" |
| `Util.ValueFromHexChar` | src/util.cpp:181-191 | the value is below 16, and 0 for a byte that is not a hex digit of either case |
| `Util.HexCharFromValueDigit` | src/util.cpp:181-197 | a value below 16 becomes an unreserved hex digit that valueFromHexChar maps back to it |
| `Util.ValueFromHexCharDigit` | src/util.cpp:181-197 | a hex digit of either case reads as the value whose upper-case digit it is |
| `Util.FullEncoding` | src/util.cpp:210-230 | escaping every byte gives between n and 3n bytes |
| `Util.FullEncodingAlphabet` | src/util.cpp:210-230 | the escaped text holds only unreserved bytes and '%' |
| `Util.FullEncodingUnreserved` | src/util.cpp:212-219 | text of `A-Z a-z 0-9 - . _ ~` escapes to itself |
| `Util.Escape` | src/util.cpp:212-227 | an unreserved byte is kept alone; any other becomes '%' and two hex digits that valueFromHexChar reads back as the byte |
| `Util.EncodeLoop` | src/util.cpp:209-230 | the static encoder's loop writes at most three bytes per source byte |
| `Util.EncodeLoopIsPrefix` | src/util.cpp:209-232 | whatever the budget, the static encoder writes a prefix of the full escaping |
| `Util.EncodeLoopUnreserved` | src/util.cpp:210-219 | unreserved input is copied unchanged while the budget covers it |
| `Util.EncodeLoopBudgetWraps` | src/util.cpp:220-229 | an escape met with three budget units left wraps the unsigned counter, and the rest of the input is no longer limited |
| `Util.PercentEncodeString` | src/util.cpp:262-292 | the wrapper's result is at most 3n bytes and a prefix of the full escaping |
| `Util.PercentEncodeUnreserved` | src/util.cpp:262-292 | the wrapper returns unreserved input unchanged |
| `Util.PercentEncodeTruncatesTwoEscapes` | src/util.cpp:220-229 | on two spaces the wrapper returns "%20%", not the full escaping "%20%20" |
| `Util.EncodeLoopFixed` | src/util.cpp:209-230 | the corrected loop, each escape costing 3 units, writes a prefix of the full escaping, at most 3n bytes |
| `Util.EncodeLoopFixedComplete` | src/util.cpp:209-232 | with each escape costing 3 units, a budget covering the full escaping writes all of it |
| `Util.PercentEncodeStringFixed` | src/util.cpp:284-288 | the corrected wrapper returns the full escaping |
| `Util.DecodeLoop` | src/util.cpp:242-259 | the static decoder writes no more bytes than the input has, nor than the budget |
| `Util.DecodeLoopPlain` | src/util.cpp:250-255 | without '%', '+' becomes a space and every other byte is copied |
| `Util.DecodeLoopTrailingPercent` | src/util.cpp:244-245 | a '%' in final position stops decoding and writes nothing |
| `Util.DecodeLoopEscape` | src/util.cpp:246-249 | "%XY" decodes to 16·v(X)+v(Y), the same for either case of the digits |
| `Util.EscapeDecodes` | src/util.cpp:242-259 | the escape of a byte decodes back to that byte |
| `Util.DecodeFullEncoding` | src/util.cpp:242-259 | the decoder undoes the full escaping while the budget allows one byte per source byte |
| `Util.PercentDecodeString` | src/util.cpp:294-304 | the decode wrapper's result is no longer than its input |
| `Util.PercentRoundTripFixed` | src/util.cpp:294-304 | decoding the corrected encoder's output gives back every byte sequence |
| `Util.EncodeTurn` | src/util.cpp:211-229 | one loop turn writes the next one or three bytes of the encoder's output, one unit of budget each; when the budget runs out inside an escape the whole output has been written |
| `Util.PercentEncodeInto` | src/util.cpp:199-233 | 0 for a null destination or source; otherwise the loop's output, NUL-terminated, its length returned, the rest of the buffer untouched |
| `Util.DecodeOne` | src/util.cpp:243-257 | one loop turn writes the next byte of the decoder's output (escape, space for '+', or the byte) and moves past the source bytes it consumed, the rest of the output still to come |
| `Util.PercentDecodeInto` | src/util.cpp:235-260 | 0 for a null destination or source; otherwise the decoded bytes, NUL-terminated, their count returned |
| `Util.PercentEncode` | src/util.cpp:262-292 | empty for null or empty input; otherwise the as-written encoder's output with budget 3n+1 |
| `Util.PercentDecode` | src/util.cpp:294-304 | empty for null or empty input; otherwise the static decoder's output with budget n+1 |
| `QueryString.JsObject.ContainsKey` | src/querystring.cpp:59 | containsKey holds exactly when the key has a value |
| `QueryString.JsObject.Get` | src/querystring.cpp:60 | get gives the key's value, or nothing for a missing key |
| `QueryString.JsObject.KeySet` | src/querystring.cpp:29 | keySet lists the keys in insertion order, and, on a well-formed object, exactly the keys that have a value |
| `QueryString.JsObject.Put` | src/querystring.cpp:65-73 | put maps the key to the value; a new key goes last, an existing one keeps its place; keys stay listed once |
| `QueryString.Promote` | src/querystring.cpp:59-76 | the stored value is always a string or an array |
| `QueryString.Added` | src/querystring.cpp:59-76 | addPair keeps an object of strings and arrays so |
| `QueryString.AddedLookup` | src/querystring.cpp:59-76 | addPair sets its key to the promoted value and leaves every other key |
| `QueryString.AddPair` | src/querystring.cpp:59-76 | the object after the call is the old one with the key promoted: absent to string, string to a 2-array, array extended |
| `QueryString.AddAllWellFormed` | src/querystring.cpp:59-76 | adding pairs keeps each key listed exactly once |
| `QueryString.CollapseSnoc` | src/querystring.cpp:59-76 | one more value moves a key from absent to string to pair to longer array |
| `QueryString.AddAllLookup` | src/querystring.cpp:59-76 | a key maps to nothing, its one value, or the array of all its values in arrival order |
| `QueryString.SegmentPair` | src/querystring.cpp:91-100 | without `eq` the segment is the key with the empty value; otherwise it splits at the last `eq` |
| `QueryString.SegmentWithoutEq` | src/querystring.cpp:94-100 | a segment without `eq` gives its decoded text as key and the empty value |
| `QueryString.SegmentAtLastEq` | src/querystring.cpp:91-93 | with several `eq`, the key is everything before the last one and the value everything after |
| `QueryString.JoinSplit` | src/querystring.cpp:90-117 | the segments joined by `sep` give the query back |
| `QueryString.ParseSpec` | src/querystring.cpp:78-119 | every value parse stores is a string or an array |
| `QueryString.ParseSpecWellFormed` | src/querystring.cpp:78-119 | a parsed object lists each key exactly once |
| `QueryString.ScanToState` | src/querystring.cpp:84-108 | after any prefix, `keyStart`, `valStart` and `key` describe the current segment and the finished ones |
| `QueryString.AddSegment` | src/querystring.cpp:101-103 | decoding the segment's key and value and calling addPair leaves the object equal to the pairs so far plus the segment's decoded pair, added in order (the same step as lines 115-117) |
| `QueryString.ScanByte` | src/querystring.cpp:90-107 | one turn of the loop keeps the scan's state in step with the reference scan one byte further on: `eq` records the key read so far and where the value starts; a separator adds the finished segment's decoded pair and starts a new segment; any other byte changes nothing |
| `QueryString.AddSeparatedSegment` | src/querystring.cpp:94-107 | at a separator the decoded pair of the finished segment is added |
| `QueryString.AddLastSegment` | src/querystring.cpp:109-118 | the text after the last separator is added, completing the parse |
| `QueryString.Parse` | src/querystring.cpp:78-119 | null or empty query gives an empty object; otherwise every segment's decoded pair, added in order |
| `QueryString.ParseLookup` | src/querystring.cpp:78-119 | each key of the parse maps to the collapse of its decoded values in query order |
| `QueryString.ParseTrailingSep` | src/querystring.cpp:109-117 | a query ending in `sep` also adds the empty key with the empty value |
| `QueryString.ParseOneSegment` | src/querystring.cpp:109-117 | a query without separators is one decoded key with one string value |
| `QueryString.ToText` | src/querystring.cpp:14-23 | toString writes a prefix of the full escaping of a string or scalar text (nothing for undefined, null, array or object), and all of it when percentEncode, as written, cuts nothing short |
| `QueryString.EncodesFullyUnreserved` | src/util.cpp:262-292 | percentEncode, as written, encodes a text of unreserved bytes in full |
| `QueryString.ValueTextCases` | src/querystring.cpp:14-23 | undefined, null, arrays and objects render empty; unreserved strings render unchanged |
| `QueryString.AppendPair` | src/querystring.cpp:51-53 | appends `key eq value`, both rendered by toString |
| `QueryString.AppendArray` | src/querystring.cpp:40-49 | appends one `key eq element` pair per element, `sep` between them, rendered by toString |
| `QueryString.Stringify` | src/querystring.cpp:25-57 | null gives ""; otherwise the entries in key order joined by `sep`, arrays expanded, rendered by toString; the corrected stringify's text whenever no key or string is cut short |
| `QueryString.StringifyAgrees` | src/querystring.cpp:14-57 | when percentEncode cuts no key and no string short, stringify as written returns what the corrected stringify returns |
| `QueryStringRoundTrip.ParseStringifyEmpty` | src/querystring.cpp:25-82 | the empty object stringifies to "" with either encoder, and "" parses to the empty object |
| `QueryStringRoundTrip.ParseStringifyFixed` | src/querystring.cpp:25-119 | with the corrected encoder, for strings and arrays of at least two strings and delimiters the encoder never writes, parse(stringify(d)) == d, key order kept |
| `QueryStringRoundTrip.ParseStringify` | src/querystring.cpp:25-119 | stringify as written: parse(stringify(d)) == d for the same objects, provided percentEncode cuts none of their keys and strings short |
| `QueryStringRoundTrip.StringifyTwoSpaces` | src/querystring.cpp:14-57 | stringify, as written, of {"k": "  "} is "k=%20%" |
| `QueryStringRoundTrip.ParseTwoSpacesQuery` | src/querystring.cpp:78-119 | parse of "k=%20%" is {"k": " "} |
| `QueryStringRoundTrip.StringifyTwoSpacesLosesOne` | src/querystring.cpp:14-119 | the round trip fails on {"k": "  "}: parse(stringify(d)) != d |
| `Http.Initial` | src/http/incoming_message.h:248-260 | a new message is READABLE only, status 0, url "", no version, method, headers, chunks or decoder |
| `Http.ToLower` | src/http/incoming_message.h:113 | the lower-cased name has the same length, each ASCII letter A-Z lowered and every other character kept |
| `Http.ToLowerIdempotent` | src/http/incoming_message.h:113 | lower-casing twice is lower-casing once |
| `Http.PutField` | src/http/incoming_message.h:112 | the line goes to the trailers once COMPLETE is set, else to the headers, and nothing else changes |
| `Http.AfterAddHeaderLine` | src/http/incoming_message.h:90-138 | addHeaderLine changes only the header and trailer maps |
| `Http.AddHeaderLineFrame` | src/http/incoming_message.h:112-137 | only the lower-cased field changes, and the trailers only once COMPLETE is set |
| `Http.SetCookieLine` | src/http/incoming_message.h:114-122 | set-cookie extends a list already in the headers, otherwise stores a one-element list |
| `Http.JoinedIsNotSetCookie` | src/http/incoming_message.h:96-124 | set-cookie is neither in the comma-separated set nor `x-` |
| `Http.JoinedLine` | src/http/incoming_message.h:123-134 | a comma-separated or `x-` field is joined as old + ", " + new when the headers hold a string |
| `Http.OtherLine` | src/http/incoming_message.h:135-136 | any other field is overwritten |
| `Http.AfterAddHeaderLines` | src/http/incoming_message.h:90-138 | a run of header lines leaves the flags alone |
| `Http.SetCookieLines` | src/http/incoming_message.h:114-122 | repeated set-cookie lines are one list in arrival order, even for one line |
| `Http.JoinedLines` | src/http/incoming_message.h:123-134 | repeated lines of a joined field become one ", "-separated string |
| `Http.OtherLines` | src/http/incoming_message.h:135-136 | repeated lines of any other field leave the last value |
| `Http.TrailerLinesFoldFromHeaders` | src/http/incoming_message.h:112-134 | after COMPLETE, the fold reads the headers, so a second `x-` trailer replaces the first |
| `Http.HeaderText` | src/http/incoming_message.h:82-84 | getHeader gives the string stored under that exact name, null for a list or a missing field |
| `Http.AfterSetHeader` | src/http/incoming_message.h:86-88 | setHeader changes only the headers |
| `Http.SetHeaderThenGet` | src/http/incoming_message.h:82-88 | a set header reads back under its lower-cased name; other names unchanged |
| `Http.GetHeaderIsCaseSensitive` | src/http/incoming_message.h:82-88 | setHeader("Host", v) stores under "host", so getHeader("Host") reads what it read before |
| `Http.AfterSetEncoding` | src/http/incoming_message.h:68-71 | setEncoding changes only the decoder |
| `Http.SetEncodingReported` | src/http/incoming_message.h:68-71 | there is a decoder iff its creation succeeded, and getEncoding reports its encoding, NONE otherwise |
| `Http.AfterEmitData` | src/http/incoming_message.h:170-179 | emitData adds at most one event to the log and changes only the log and the decoder |
| `Http.EmitDataEvent` | src/http/incoming_message.h:170-179 | without a decoder the raw buffer is emitted; with one, the decoded text, only if non-empty |
| `Http.AfterEmitEnd` | src/http/incoming_message.h:181-186 | END_EMITTED is set afterwards in every case, no other flag changes |
| `Http.EmitEndOnce` | src/http/incoming_message.h:181-186 | `end` is emitted iff END_EMITTED was clear, and at most once in the log |
| `Http.EmitEndIdempotent` | src/http/incoming_message.h:181-186 | any number of emitEnd calls act as one |
| `Http.EmitDataKeepsEndOnce` | src/http/incoming_message.h:170-179 | emitData never emits `end` |
| `Http.PumpOnce` | src/http/incoming_message.h:209-219 | a pass removes the first queued chunk and changes only queue, decoder, flags and log |
| `Http.PumpFrom` | src/http/incoming_message.h:209-219 | the loop leaves a suffix of the queue |
| `Http.AfterPump` | src/http/incoming_message.h:206-223 | the callback runs after the loop, also when a pause stopped it |
| `Http.PumpStops` | src/http/incoming_message.h:209 | the loop ends only with the queue empty or PAUSED set |
| `Http.PumpOnceKeepsEndOnce` | src/http/incoming_message.h:209-219 | one pass never emits a second `end` |
| `Http.PumpKeepsEndOnce` | src/http/incoming_message.h:206-223 | the pump never emits a second `end` |
| `Http.PumpOnceRaw` | src/http/incoming_message.h:210-213 | a real chunk is emitted, and PAUSED set iff its listener pauses |
| `Http.PumpOnceSentinel` | src/http/incoming_message.h:214-218 | the null chunk clears READABLE, sets END_EMITTED and emits `end` unless already emitted |
| `Http.PumpDrainsInOrder` | src/http/incoming_message.h:206-223 | without a pause, every chunk is emitted in FIFO order, then `end` for the null chunk, queue emptied |
| `Http.PumpPausesAfter` | src/http/incoming_message.h:209-219 | a pause by dequeue j stops the pump right after that chunk; the rest stays queued |
| `Http.PumpKeepsValid` | src/http/incoming_message.h:206-223 | the pump keeps the null chunk last and `end` at most once |
| `Http.Create` | src/http/incoming_message.h:25-31 | null without a socket; otherwise a new message in its initial state |
| `Http.IncomingMessage.constructor` | src/http/incoming_message.h:248-260 | the new message is in its initial state |
| `Http.IncomingMessage.IsReadable` | src/http/incoming_message.h:61-63 | readable() is the READABLE flag |
| `Http.IncomingMessage.HasFlag` | src/http/incoming_message.h:209 | hasFlag holds exactly when the flag is in the message's flag set |
| `Http.IncomingMessage.SetFlag` | src/http/incoming_message.h:259 | adds one flag, nothing else changes |
| `Http.IncomingMessage.UnsetFlag` | src/http/incoming_message.h:216 | removes one flag, nothing else changes |
| `Http.IncomingMessage.SetStatusCode` | src/http/incoming_message.h:74-76 | changes the status code only |
| `Http.IncomingMessage.SetHttpVersion` | src/http/incoming_message.h:78-80 | changes the version only |
| `Http.IncomingMessage.SetUrl` | src/http/incoming_message.h:140-142 | changes the url only |
| `Http.IncomingMessage.SetMethod` | src/http/incoming_message.h:144-146 | changes the method only |
| `Http.IncomingMessage.GetHeader` | src/http/incoming_message.h:82-84 | the header text under that exact name |
| `Http.IncomingMessage.SetHeader` | src/http/incoming_message.h:86-88 | the state after setHeader |
| `Http.IncomingMessage.AddHeaderLine` | src/http/incoming_message.h:90-138 | the state after addHeaderLine, folding as above |
| `Http.IncomingMessage.SetEncoding` | src/http/incoming_message.h:68-71 | returns whether the decoder was created; the state after setEncoding |
| `Http.IncomingMessage.HasEncoding` | src/http/incoming_message.h:148-150 | whether there is a decoder |
| `Http.IncomingMessage.GetEncoding` | src/http/incoming_message.h:152-154 | the decoder's encoding, NONE without one |
| `Http.IncomingMessage.AddPending` | src/http/incoming_message.h:156-158 | a chunk appended to the pending list; the null chunk stays last |
| `Http.IncomingMessage.EmitData` | src/http/incoming_message.h:170-179 | the state after emitData |
| `Http.IncomingMessage.EmitEnd` | src/http/incoming_message.h:181-186 | the state after emitEnd; `end` at most once |
| `Http.IncomingMessage.EmitPending` | src/http/incoming_message.h:160-168 | empty queue: the callback runs at once, nothing deferred; otherwise exactly one pump is deferred |
| `Http.EmitPendingTask.constructor` | src/http/incoming_message.h:229-233 | the task holds its message and callback |
| `Http.EmitPendingTask.Pass` | src/http/incoming_message.h:209-219 | one pass of the loop: the message afterwards is the pump's one step from before, and no task is scheduled |
| `Http.EmitPendingTask.Call` | src/http/incoming_message.h:206-223 | the loop re-reads PAUSED every pass; the state after it is the pump's, callback last |
| `Net.Initial` | src/net/server_impl.h:237-241 | a new server has no handle, no connections, nothing scheduled |
| `Net.Inc` | src/net/server_impl.h:178 | `connections_++` adds one, wrapping at 2^64 |
| `Net.Backlog` | src/net/server_impl.h:116 | a backlog of 0 becomes 511, any other is kept |
| `Net.RegisterOnce` | src/net/server_impl.h:39 | a given callback is added as a one-shot listener, nothing else changes |
| `Net.CreateServerHandle` | src/net/server_impl.h:64-96 | a pipe for a descriptor or for port and address type both -1, TCP otherwise, carrying the id given; creation fails iff a bind was attempted and failed, and then the handle is closed; a kept handle is never closed |
| `Net.ListenWith` | src/net/server_impl.h:113-128 | the accept handler is installed and listen called; listen fails iff the reactor's status is non-zero, and then the handle is closed and dropped and `error` scheduled, otherwise the handle kept and `listening` scheduled |
| `Net.AfterListenOn` | src/net/server_impl.h:98-129 | listen leaves the counter, the events and the listeners alone |
| `Net.AfterListen` | src/net/server_impl.h:34-41 | the public listen registers its callback as a one-shot `listening` listener |
| `Net.AfterEmitCloseIfDrained` | src/net/server_impl.h:131-136 | `close` is scheduled iff there is neither a handle nor a connection |
| `Net.AfterClose` | src/net/server_impl.h:43-53 | returns true iff there was a handle; afterwards there is none |
| `Net.AfterRef` | src/net/server_impl.h:55-57 | ref reaches the handle iff there is one; nothing else changes |
| `Net.AfterUnref` | src/net/server_impl.h:59-61 | unref reaches the handle iff there is one; nothing else changes |
| `Net.AcceptedSocket` | src/net/server_impl.h:170-174 | the new socket is on the client handle, READABLE and WRITABLE, half-open as the server allows |
| `Net.AfterConnection` | src/net/server_impl.h:146-184 | the accept handler leaves the handle and the listeners alone |
| `Net.TickEvent` | src/net/server_impl.h:187-224 | EmitError, EmitListening and EmitClose emit `error`, `listening` and `close` |
| `Net.AfterTick` | src/net/server_impl.h:187-224 | a turn of the loop removes the oldest task |
| `Net.CloseWithoutHandle` | src/net/server_impl.h:45 | close without a handle returns false and changes nothing |
| `Net.CloseWithHandle` | src/net/server_impl.h:43-53 | close clears the handle and schedules `close` iff there are no connections |
| `Net.CloseTwice` | src/net/server_impl.h:43-53 | a second close returns false and changes nothing |
| `Net.ListenCreateFails` | src/net/server_impl.h:104-110 | a failed handle creation schedules one `error`, leaves no handle, returns false |
| `Net.ListenFails` | src/net/server_impl.h:116-122 | a failed reactor listen closes and clears the handle, schedules one `error`, returns false |
| `Net.ListenSucceeds` | src/net/server_impl.h:113-128 | a successful listen schedules one `listening` and returns true, backlog never 0 |
| `Net.ListenReusesHandle` | src/net/server_impl.h:104-105 | with a handle present, listen reuses it, creates and binds nothing |
| `Net.ListenTwice` | src/net/server_impl.h:98-129 | two successful listens share one handle and schedule `listening` twice |
| `Net.PublicListenIsTcp` | src/net/server_impl.h:34-41 | the public listen uses address type 4: a TCP handle bound with bind, not bind6 |
| `Net.AcceptOther` | src/net/server_impl.h:156-160 | a client neither pipe nor TCP schedules `error`, returns ILLEGAL_STATE, counter unchanged |
| `Net.AcceptStream` | src/net/server_impl.h:170-183 | an accept adds exactly one connection and emits `connection` before the socket's `connect` |
| `Net.TickKeepsClosesScheduled` | src/net/server_impl.h:187-198 | a `close` task becomes a `close` event when it runs |
| `Net.ListenKeepsCloses` | src/net/server_impl.h:98-129 | listen never schedules `close` |
| `Net.StepWithConnections` | src/net/server_impl.h:131-136 | with connections open, no operation schedules `close` or lowers the counter |
| `Net.NoCloseWhileConnected` | src/net/server_impl.h:131-136 | once a connection is accepted, no run of operations schedules `close` |
| `Net.TicksRunInOrder` | src/net/server_impl.h:187-224 | deferred tasks run in FIFO order, n turns emitting the n oldest tasks' events |
| `Net.IncMod` | src/net/server_impl.h:178 | incrementing a counter kept modulo 2^64 wraps as `Inc` does |
| `Net.ListenKeepsValid` | src/net/server_impl.h:98-129 | listen keeps the counter equal to the `connection` events and the handle one created before |
| `Net.CloseKeepsValid` | src/net/server_impl.h:43-53 | close keeps the server invariant |
| `Net.ConnectionKeepsValid` | src/net/server_impl.h:146-184 | an accept keeps the counter equal to the number of `connection` events |
| `Net.TickKeepsValid` | src/net/server_impl.h:187-224 | a turn of the loop keeps the invariant |
| `Net.RunKeepsValid` | src/net/server_impl.h:15-244 | every sequence of operations keeps the invariant |
| `Net.ServerImpl.constructor` | src/net/server_impl.h:237-241 | the new server is in its initial state |
| `Net.ServerImpl.Listen` | src/net/server_impl.h:34-41 | result and state of the public listen |
| `Net.ServerImpl.ListenOn` | src/net/server_impl.h:98-129 | result and state of the private listen |
| `Net.ServerImpl.CreateHandle` | src/net/server_impl.h:64-96 | the handle kept (or null) and the reactor calls of createServerHandle |
| `Net.ServerImpl.Close` | src/net/server_impl.h:43-53 | result and state of close |
| `Net.ServerImpl.EmitCloseIfDrained` | src/net/server_impl.h:131-136 | the state after emitCloseIfDrained |
| `Net.ServerImpl.Ref` | src/net/server_impl.h:55-57 | the state after ref |
| `Net.ServerImpl.Unref` | src/net/server_impl.h:59-61 | the state after unref |
| `Net.ServerImpl.OnConnection` | src/net/server_impl.h:146-184 | status and state of the accept handler |
| `Net.ServerImpl.RunTick` | src/net/server_impl.h:187-224 | the oldest deferred task runs and emits its event |

## Left out

- `base64Encode`/`base64Decode`: thin wrappers over OpenSSL BIO, a foreign library.
- `isArray`, `isError`, `isRegExp`, `extend`: runtime type reflection and object copying of the libj runtime.
- The transcoding `Buffer::create(str, enc)` in the percentEncode wrapper, `toStdString` and `String::create(decoded, enc, size)` in the decode wrapper: strings are taken as byte strings, one byte per character. So the model does not capture that the decode wrapper sizes its budget as `str->length() + 1`, a count of characters (`src/util.cpp:298`), while the loop walks the bytes of `toStdString()` (`src/util.cpp:300`): input with multi-byte characters is cut short ("éé" is 2 characters and 4 UTF-8 bytes, so the budget covers 2 bytes and the result is "é").
- `src/net.cpp`, `src/uv/stream.cpp`, `src/http.cpp`, the interfaces under `include/`, `gtest/gtest_buffer.cpp`: delegation to code not shown, a libuv callback trampoline, pure interfaces, tests of a Buffer class whose implementation is not part of this model.
- `ServerImpl::address()` and `pipeName_` (`getSockName` on the reactor), the `#if 0` maxConnections block, `IncomingMessage::destroy()` and the trivial accessors (`socket()`, `headers()`, ...): reactor queries, dead code, or delegation to SocketImpl, which is not part of this model.
- Reactor internals (bind, listen, readStart, close): their calls are logged and their results are parameters.
- The EventEmitter's listener storage: one-shot listeners are recorded in order but never invoked; the StringDecoder is an abstract step function; the event loop is a FIFO of deferred tasks run one at a time.
- `src/flag.h` (FlagMixin) is not part of this model; flags are a set of named flags.
- Util.PercentDecodeInto: requires that the scan never meets '%' followed by one character and the end of input, where the C++ reads past the terminator; no result is invented for that case.
- Util.PercentDecode: requires the same of its input, for the same reason.
- Util.PercentDecodeString: requires the same of its input, for the same reason.
- QueryString.Parse: requires every key and value it decodes to satisfy that same condition.
- QueryString.Stringify: requires every key and value to fit the encoder's 3n+1 buffer in a 64-bit `Size`.
- QueryStringRoundTrip.ParseStringify: holds only when percentEncode, as written, cuts no key and no string short (see Findings); `StringifyTwoSpacesLosesOne` shows an object it fails on.
- The key order of libj's JsObject (not part of this model) is assumed, not derived: a new key goes last in `keySet()` and `put` on an existing key keeps its place. addPair's promotion (`src/querystring.cpp:65`, `:70`) re-puts keys, so the key order parse gives, and the round trip's "key order kept", rest on this assumption.
- Util.PercentEncode: requires 3n+1 to fit a 64-bit `Size`, which the C++ computes without an overflow check.
- Http.IncomingMessage.AddPending: requires no null chunk to be queued yet; the C++ leaves that to the HTTP parser.
- Http.PumpDrainsInOrder: stated for a message without a decoder; with one, the decoder's output replaces the raw chunks.
- Http.PumpPausesAfter: stated for a message without a decoder, for the same reason.
- Http.EmitPendingTask.Call: a `data` listener's `pause()` is given as the set of dequeue numbers after which PAUSED becomes set; `resume()` and other listener effects are not modelled.
- Http.IncomingMessage.UnsetFlag: keeps the invariant only for flags other than END_EMITTED.
- Net.AcceptStream: stated while the counter stays below 2^64 - 1, beyond which `connections_++` wraps to 0.
- Net.NoCloseWhileConnected: stated for runs that cannot wrap the counter (fewer than 2^64 - 1 - connections operations).
- Net.StepWithConnections: stated while the counter stays below 2^64 - 1.
- Net.AcceptedSocket: `server_impl.h` declares ALLOW_HALF_OPEN but no operation there sets it, and a new server starts with no flags, so the model only ever reaches the accepted socket with half-open off; the function itself is stated for either setting.

## Findings

| source | as written | input that shows it | evidently intended | confidence | as-written member | corrected member |
|---|---|---|---|---|---|---|
| src/util.cpp:220-229 | each escaped byte lowers `encodedLength` by 5 (two pre-decrements, `-= 2`, the loop's `--`) while writing 3 characters, and the wrapper sizes the budget at 3n+1 | two spaces: the wrapper returns "%20%" | every escape costs the 3 characters it writes, so the wrapper returns "%20%20" | high; not executed | Util.PercentEncodeTruncatesTwoEscapes | Util.PercentEncodeStringFixed |
| src/querystring.cpp:21 | toString renders through the truncating percentEncode, so stringify can write a cut escape that parse decodes to nothing | {"k": "  "}: stringify gives "k=%20%", which parses to {"k": " "} | parse(stringify(d)) == d for objects of strings and arrays of strings | high; not executed | QueryStringRoundTrip.StringifyTwoSpacesLosesOne | QueryStringRoundTrip.ParseStringifyFixed |
