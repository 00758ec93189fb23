/** The HTTP incoming message: a request as a server sees it or a response as
    a client sees it. It owns a header map and a trailer map filled by
    addHeaderLine with per-field folding rules, a set of flags, an optional
    streaming string decoder, and a queue of body chunks (a null entry marks
    the end of the body) that a deferred pump turns into `data` and `end`
    events.

    Everything the message emits, and every callback it runs, is appended to
    an event log in order. The tasks it hands to process::nextTick are kept
    in `ticks`, oldest first. The StringDecoder is abstract: a decoding step
    maps (encoding, carried bytes, new bytes) to (text, carried bytes). */
module Http {
  import opened Wrappers
  import opened Util

  /** The socket the message arrived on (a non-owning reference). */
  type SocketId = nat

  /** A callback handed in by the caller; running it is logged as `Called`. */
  type Callback = nat

  /** The flag bits of the message (COMPLETE = 1, READABLE = 2, PAUSED = 4,
      END_EMITTED = 8, UPGRADE = 16); a flag word is the set of bits set. */
  datatype Flag = Complete | Readable | Paused | EndEmitted | Upgrade

  /** A header value: a string, or the list kept for `set-cookie`. */
  datatype HeaderValue = Text(s: string) | List(items: seq<string>)

  type HeaderMap = map<string, HeaderValue>

  /** Buffer::Encoding: NONE, or one of the encodings a decoder can use. */
  datatype Encoding = NoEncoding | Enc(code: nat)

  /** A StringDecoder: its encoding and the bytes of an incomplete character
      it carries over to the next write. */
  datatype Decoder = Decoder(encoding: Encoding, carry: Bytes)

  /** One StringDecoder::write: (encoding, carried, input) to (text, carried). */
  type DecodeStep = (Encoding, Bytes, Bytes) -> (string, Bytes)

  datatype Payload = Raw(buf: Bytes) | Decoded(text: string)

  datatype Event = Data(payload: Payload) | End | Called(callback: Callback)

  /** The value of every field of an IncomingMessage. */
  datatype MessageState = MessageState(
    socket: SocketId,
    statusCode: int,
    httpVersion: Option<string>,
    headers: HeaderMap,
    trailers: HeaderMap,
    url: Option<string>,
    httpMethod: Option<string>,
    pendings: seq<Option<Bytes>>,
    decoder: Option<Decoder>,
    flags: set<Flag>,
    events: seq<Event>)

  /** A new message: READABLE only, status 0, an empty (non-null) url, null
      version and method, no headers, no pending chunks, no decoder. */
  function Initial(sock: SocketId): (s: MessageState)
    ensures s.flags == {Readable} && s.statusCode == 0 && s.url == Some("")
    ensures s.httpVersion.None? && s.httpMethod.None? && s.decoder.None?
    ensures s.headers == map[] && s.trailers == map[] && s.pendings == [] && s.events == []
  {
    MessageState(sock, 0, None, map[], map[], Some(""), None, [], None, {Readable}, [])
  }

  // ---------------------------------------------------------------------
  // Header names and the folding rules of addHeaderLine
  // ---------------------------------------------------------------------

  function LowerChar(c: char): (r: char)
    ensures !('A' <= r <= 'Z')
    ensures !('A' <= c <= 'Z') ==> r == c
  {
    if 'A' <= c <= 'Z' then (c as int - 'A' as int + 'a' as int) as char else c
  }

  /** String::toLowerCase on header names (ASCII letters). */
  function ToLower(s: string): (r: string)
    ensures |r| == |s|
    ensures forall i :: 0 <= i < |s| ==> r[i] == LowerChar(s[i])
  {
    seq(|s|, i requires 0 <= i < |s| => LowerChar(s[i]))
  }

  /** Lower-casing a lower-cased name changes nothing. */
  lemma ToLowerIdempotent(s: string)
    ensures ToLower(ToLower(s)) == ToLower(s)
  {
  }

  const SET_COOKIE: string := "set-cookie"

  /** The fields whose repeated lines are joined with ", ". */
  const COMMA_SEPARATED: set<string> := {
    "accept", "accept-charset", "accept-encoding", "accept-language",
    "connection", "cookie", "pragma", "link", "www-authenticate",
    "proxy-authenticate", "sec-websocket-extensions", "sec-websocket-protocol"
  }

  /** A field whose repeated lines are joined: a listed one or an `x-` one. */
  predicate Joined(field: string)
  {
    field in COMMA_SEPARATED || (|field| >= 2 && field[..2] == "x-")
  }

  /** Where addHeaderLine writes: the trailers once COMPLETE is set. */
  function Dest(s: MessageState): (m: HeaderMap)
  {
    if Complete in s.flags then s.trailers else s.headers
  }

  function PutField(s: MessageState, field: string, v: HeaderValue): (r: MessageState)
    ensures Dest(r) == Dest(s)[field := v]
    ensures Complete in s.flags ==> r.headers == s.headers
    ensures Complete !in s.flags ==> r.trailers == s.trailers
    ensures r.(headers := s.headers, trailers := s.trailers) == s
  {
    if Complete in s.flags then s.(trailers := s.trailers[field := v])
    else s.(headers := s.headers[field := v])
  }

  /** The message after addHeaderLine(name, value). The existing value a
      line is folded into is always looked up in the headers, also when the
      line goes to the trailers; a `set-cookie` list found there is extended
      in place. */
  function AfterAddHeaderLine(s: MessageState, name: string, value: string): (r: MessageState)
    ensures r.(headers := s.headers, trailers := s.trailers) == s
  {
    var field := ToLower(name);
    if field == SET_COOKIE then
      if field in s.headers && s.headers[field].List? then
        s.(headers := s.headers[field := List(s.headers[field].items + [value])])
      else
        PutField(s, field, List([value]))
    else if Joined(field) && field in s.headers && s.headers[field].Text? then
      PutField(s, field, Text(s.headers[field].s + ", " + value))
    else
      PutField(s, field, Text(value))
  }

  /** addHeaderLine touches the lower-cased field only, and the trailers only
      once the message is complete. */
  lemma AddHeaderLineFrame(s: MessageState, name: string, value: string)
    ensures var r := AfterAddHeaderLine(s, name, value);
      r.headers - {ToLower(name)} == s.headers - {ToLower(name)} &&
      r.trailers - {ToLower(name)} == s.trailers - {ToLower(name)} &&
      (Complete !in s.flags ==> r.trailers == s.trailers)
  {
  }

  /** A set-cookie line: a list already in the headers gets the value
      appended (even for a trailer line); otherwise the destination gets a
      one-element list. */
  lemma SetCookieLine(s: MessageState, name: string, value: string)
    requires ToLower(name) == SET_COOKIE
    ensures var r := AfterAddHeaderLine(s, name, value);
      if SET_COOKIE in s.headers && s.headers[SET_COOKIE].List? then
        r.headers == s.headers[SET_COOKIE := List(s.headers[SET_COOKIE].items + [value])] &&
        r.trailers == s.trailers
      else
        Dest(r) == Dest(s)[SET_COOKIE := List([value])]
  {
  }

  /** A joined field: appended to a string already in the headers after ", ",
      otherwise stored as it is; always into the destination map. */
  lemma JoinedLine(s: MessageState, name: string, value: string)
    requires Joined(ToLower(name))
    ensures var f := ToLower(name); var r := AfterAddHeaderLine(s, name, value);
      if f in s.headers && s.headers[f].Text? then
        Dest(r) == Dest(s)[f := Text(s.headers[f].s + ", " + value)]
      else
        Dest(r) == Dest(s)[f := Text(value)]
  {
    JoinedIsNotSetCookie(ToLower(name));
  }

  lemma JoinedIsNotSetCookie(f: string)
    requires Joined(f)
    ensures f != SET_COOKIE
  {
    assert SET_COOKIE !in COMMA_SEPARATED;
    assert SET_COOKIE[..2] == "se";
  }

  /** Any other field: the latest line overwrites. */
  lemma OtherLine(s: MessageState, name: string, value: string)
    requires ToLower(name) != SET_COOKIE && !Joined(ToLower(name))
    ensures Dest(AfterAddHeaderLine(s, name, value)) == Dest(s)[ToLower(name) := Text(value)]
  {
  }

  /** The message after the lines `name: vs[0]`, ..., `name: vs[|vs|-1]`. */
  function AfterAddHeaderLines(s: MessageState, name: string, vs: seq<string>): (r: MessageState)
    ensures r.flags == s.flags
    decreases |vs|
  {
    if vs == [] then s
    else AfterAddHeaderLine(AfterAddHeaderLines(s, name, vs[..|vs| - 1]), name, vs[|vs| - 1])
  }

  /** The values of repeated lines joined with ", ". */
  function CommaList(vs: seq<string>): (r: string)
    requires vs != []
    decreases |vs|
  {
    if |vs| == 1 then vs[0] else CommaList(vs[..|vs| - 1]) + ", " + vs[|vs| - 1]
  }

  /** Repeated set-cookie request lines are kept, in order, as one list. */
  lemma {:induction false} SetCookieLines(s: MessageState, name: string, vs: seq<string>)
    requires ToLower(name) == SET_COOKIE && Complete !in s.flags && SET_COOKIE !in s.headers
    requires vs != []
    ensures var r := AfterAddHeaderLines(s, name, vs);
      SET_COOKIE in r.headers && r.headers[SET_COOKIE] == List(vs)
    decreases |vs|
  {
    var init := vs[..|vs| - 1];
    if init == [] {
      assert vs == [vs[0]];
    } else {
      SetCookieLines(s, name, init);
      assert init + [vs[|vs| - 1]] == vs;
    }
  }

  /** Repeated request lines of a joined field become one ", "-separated
      string. */
  lemma {:induction false} JoinedLines(s: MessageState, name: string, vs: seq<string>)
    requires Joined(ToLower(name)) && Complete !in s.flags && ToLower(name) !in s.headers
    requires vs != []
    ensures var r := AfterAddHeaderLines(s, name, vs);
      ToLower(name) in r.headers && r.headers[ToLower(name)] == Text(CommaList(vs))
    decreases |vs|
  {
    var init := vs[..|vs| - 1];
    JoinedLine(AfterAddHeaderLines(s, name, init), name, vs[|vs| - 1]);
    if init != [] {
      JoinedLines(s, name, init);
    }
  }

  /** Repeated lines of any other field leave the last value. */
  lemma {:induction false} OtherLines(s: MessageState, name: string, vs: seq<string>)
    requires ToLower(name) != SET_COOKIE && !Joined(ToLower(name))
    requires vs != []
    ensures var r := AfterAddHeaderLines(s, name, vs);
      ToLower(name) in Dest(r) && Dest(r)[ToLower(name)] == Text(vs[|vs| - 1])
  {
    OtherLine(AfterAddHeaderLines(s, name, vs[..|vs| - 1]), name, vs[|vs| - 1]);
  }

  /** Trailer lines fold into the header value of the same field, not into
      an earlier trailer: a second `x-` trailer line replaces the first one
      when the headers have no such field. */
  lemma TrailerLinesFoldFromHeaders(s: MessageState, name: string, v1: string, v2: string)
    requires Complete in s.flags && Joined(ToLower(name)) && ToLower(name) !in s.headers
    ensures var r := AfterAddHeaderLines(s, name, [v1, v2]);
      r.headers == s.headers && r.trailers == s.trailers[ToLower(name) := Text(v2)]
  {
    var f := ToLower(name);
    JoinedIsNotSetCookie(f);
    assert [v1, v2][..1] == [v1];
    assert [v1][..0] == [];
    assert AfterAddHeaderLines(s, name, [v1]) == AfterAddHeaderLine(s, name, v1);
    var r1 := AfterAddHeaderLine(s, name, v1);
    assert r1.headers == s.headers && r1.trailers == s.trailers[f := Text(v1)];
    var r2 := AfterAddHeaderLine(r1, name, v2);
    assert r2.headers == s.headers && r2.trailers == s.trailers[f := Text(v1)][f := Text(v2)];
  }

  /** getHeader: the string stored under exactly this name (no lower-casing);
      a list or a missing field gives null. */
  function HeaderText(h: HeaderMap, name: string): (r: Option<string>)
    ensures r.Some? <==> name in h && h[name].Text?
    ensures r.Some? ==> h[name] == Text(r.value)
  {
    if name in h && h[name].Text? then Some(h[name].s) else None
  }

  /** setHeader: store the value under the lower-cased name. */
  function AfterSetHeader(s: MessageState, name: string, value: string): (r: MessageState)
    ensures r.(headers := s.headers) == s
  {
    s.(headers := s.headers[ToLower(name) := Text(value)])
  }

  /** A set header reads back under its lower-cased name, and no other name
      changes. */
  lemma SetHeaderThenGet(s: MessageState, name: string, value: string, other: string)
    ensures HeaderText(AfterSetHeader(s, name, value).headers, ToLower(name)) == Some(value)
    ensures other != ToLower(name) ==>
      HeaderText(AfterSetHeader(s, name, value).headers, other) == HeaderText(s.headers, other)
  {
  }

  /** getHeader does not lower-case: a header set as "Host" is not found
      under "Host". */
  lemma GetHeaderIsCaseSensitive(s: MessageState, value: string)
    ensures HeaderText(AfterSetHeader(s, "Host", value).headers, "Host") == HeaderText(s.headers, "Host")
  {
    assert ToLower("Host")[0] == 'h';
  }

  // ---------------------------------------------------------------------
  // Encoding, data and end
  // ---------------------------------------------------------------------

  /** setEncoding: a decoder for `enc` if StringDecoder::create succeeds
      (`created`), otherwise none, even if one was set before. */
  function AfterSetEncoding(s: MessageState, enc: Encoding, created: bool): (r: MessageState)
    ensures r.(decoder := s.decoder) == s
  {
    s.(decoder := if created then Some(Decoder(enc, [])) else None)
  }

  /** getEncoding: the decoder's encoding, NONE without a decoder. */
  function EncodingOf(s: MessageState): (e: Encoding)
  {
    if s.decoder.Some? then s.decoder.value.encoding else NoEncoding
  }

  /** After setEncoding the message reports the encoding iff the decoder was
      created; a failed call leaves no encoding at all. */
  lemma SetEncodingReported(s: MessageState, enc: Encoding, created: bool)
    ensures var r := AfterSetEncoding(s, enc, created);
      r.decoder.Some? == created && EncodingOf(r) == (if created then enc else NoEncoding)
  {
  }

  /** emitData: without a decoder the raw buffer is emitted; with one, the
      buffer goes through the decoder and its text is emitted only if it is
      not empty. */
  function AfterEmitData(s: MessageState, buf: Bytes, write: DecodeStep): (r: MessageState)
    ensures r.(events := s.events, decoder := s.decoder) == s
    ensures r.decoder.Some? == s.decoder.Some?
    ensures |s.events| <= |r.events| <= |s.events| + 1 && r.events[..|s.events|] == s.events
  {
    match s.decoder
    case None => s.(events := s.events + [Data(Raw(buf))])
    case Some(d) =>
      var out := write(d.encoding, d.carry, buf);
      s.(decoder := Some(d.(carry := out.1)),
         events := if out.0 == [] then s.events else s.events + [Data(Decoded(out.0))])
  }

  /** What emitData adds to the log: the raw buffer iff there is no decoder,
      otherwise the decoded text iff it is not empty; and never `end`. */
  lemma EmitDataEvent(s: MessageState, buf: Bytes, write: DecodeStep)
    ensures var r := AfterEmitData(s, buf, write);
      (s.decoder.None? ==> r.events == s.events + [Data(Raw(buf))]) &&
      (s.decoder.Some? ==>
        var out := write(s.decoder.value.encoding, s.decoder.value.carry, buf);
        r.decoder == Some(s.decoder.value.(carry := out.1)) &&
        (out.0 == [] ==> r.events == s.events) &&
        (out.0 != [] ==> r.events == s.events + [Data(Decoded(out.0))]))
  {
  }

  /** The number of `end` events in a log. */
  function CountEnd(es: seq<Event>): (n: nat)
    ensures n <= |es|
    decreases |es|
  {
    if es == [] then 0 else CountEnd(es[..|es| - 1]) + (if es[|es| - 1] == End then 1 else 0)
  }

  lemma CountEndSnoc(es: seq<Event>, e: Event)
    ensures CountEnd(es + [e]) == CountEnd(es) + (if e == End then 1 else 0)
  {
    assert (es + [e])[..|es|] == es;
  }

  /** `end` has been emitted at most once, and only with END_EMITTED set. */
  predicate EndOnce(s: MessageState)
  {
    CountEnd(s.events) <= 1 && (CountEnd(s.events) == 1 ==> EndEmitted in s.flags)
  }

  /** emitEnd: `end` unless END_EMITTED is set; END_EMITTED afterwards. */
  function AfterEmitEnd(s: MessageState): (r: MessageState)
    ensures EndEmitted in r.flags && r.flags - {EndEmitted} == s.flags - {EndEmitted}
    ensures r.(events := s.events, flags := s.flags) == s
  {
    s.(events := if EndEmitted in s.flags then s.events else s.events + [End],
       flags := s.flags + {EndEmitted})
  }

  /** emitEnd emits `end` exactly when END_EMITTED was clear, and keeps
      `end` at most once in the log. */
  lemma EmitEndOnce(s: MessageState)
    requires EndOnce(s)
    ensures var r := AfterEmitEnd(s);
      EndOnce(r) && CountEnd(r.events) == (if EndEmitted in s.flags then CountEnd(s.events) else 1) &&
      (EndEmitted in s.flags <==> r.events == s.events)
  {
    if EndEmitted !in s.flags {
      CountEndSnoc(s.events, End);
    }
  }

  /** emitEnd called n times. */
  function EmitEndTimes(s: MessageState, n: nat): (r: MessageState)
    decreases n
  {
    if n == 0 then s else AfterEmitEnd(EmitEndTimes(s, n - 1))
  }

  /** Any number of emitEnd calls act as one. */
  lemma {:induction false} EmitEndIdempotent(s: MessageState, n: nat)
    requires n > 0
    ensures EmitEndTimes(s, n) == AfterEmitEnd(s)
    decreases n
  {
    if n > 1 {
      EmitEndIdempotent(s, n - 1);
    }
  }

  /** emitData never adds `end`. */
  lemma EmitDataKeepsEndOnce(s: MessageState, buf: Bytes, write: DecodeStep)
    requires EndOnce(s)
    ensures EndOnce(AfterEmitData(s, buf, write))
    ensures CountEnd(AfterEmitData(s, buf, write).events) == CountEnd(s.events)
  {
    match s.decoder
    case None =>
      CountEndSnoc(s.events, Data(Raw(buf)));
    case Some(d) =>
      var out := write(d.encoding, d.carry, buf);
      if out.0 != [] {
        CountEndSnoc(s.events, Data(Decoded(out.0)));
      }
  }

  // ---------------------------------------------------------------------
  // The pending queue and its pump
  // ---------------------------------------------------------------------

  /** The null chunk can only be the last one queued. */
  predicate SentinelLast(p: seq<Option<Bytes>>)
  {
    forall i :: 0 <= i < |p| - 1 ==> p[i].Some?
  }

  /** The pump touches only the queue, the decoder, the flags and the event
      log: every other field of the message is as it was. */
  predicate PumpFrame(s: MessageState, r: MessageState)
  {
    r.socket == s.socket && r.statusCode == s.statusCode &&
    r.httpVersion == s.httpVersion && r.headers == s.headers &&
    r.trailers == s.trailers && r.url == s.url && r.httpMethod == s.httpMethod
  }

  /** `a` is what is left of `b` after removing some of its first elements. */
  predicate Suffix<T(==)>(a: seq<T>, b: seq<T>)
  {
    |a| <= |b| && a == b[|b| - |a|..]
  }

  lemma SuffixOfTail<T>(a: seq<T>, b: seq<T>)
    requires b != [] && Suffix(a, b[1..])
    ensures Suffix(a, b)
  {
    assert b[1..][|b| - 1 - |a|..] == b[|b| - |a|..];
  }

  /** One pass of the loop of EmitPending::operator(), the i-th dequeue: the
      first chunk is removed; a real chunk goes to emitData, the null one
      clears READABLE and calls emitEnd. The `data` listener may call
      pause(): `pauseAt` holds the dequeue numbers whose data event does so. */
  function PumpOnce(s: MessageState, pauseAt: set<nat>, write: DecodeStep, i: nat): (r: MessageState)
    requires s.pendings != []
    ensures r.pendings == s.pendings[1..]
    ensures PumpFrame(s, r)
  {
    var rest := s.(pendings := s.pendings[1..]);
    match s.pendings[0]
    case Some(buf) =>
      var t := AfterEmitData(rest, buf, write);
      if i in pauseAt && |t.events| > |rest.events| then t.(flags := t.flags + {Paused}) else t
    case None =>
      AfterEmitEnd(rest.(flags := rest.flags - {Readable}))
  }

  /** The loop from its i-th dequeue on: it runs while PAUSED is clear and a
      chunk is queued, re-reading PAUSED before every pass. */
  function PumpFrom(s: MessageState, pauseAt: set<nat>, write: DecodeStep, i: nat): (r: MessageState)
    ensures PumpFrame(s, r)
    ensures Suffix(r.pendings, s.pendings)
    decreases |s.pendings|
  {
    if Paused in s.flags || s.pendings == [] then s
    else
      var t := PumpOnce(s, pauseAt, write, i);
      var r := PumpFrom(t, pauseAt, write, i + 1);
      SuffixOfTail(r.pendings, s.pendings);
      r
  }

  /** The whole pump: the loop, then the callback if there is one, also when
      the loop stopped because of a pause. */
  function AfterPump(s: MessageState, callback: Option<Callback>, pauseAt: set<nat>, write: DecodeStep): (r: MessageState)
    ensures var t := PumpFrom(s, pauseAt, write, 0);
      r.(events := t.events) == t &&
      (callback.None? ==> r.events == t.events) &&
      (callback.Some? ==> r.events == t.events + [Called(callback.value)])
  {
    var t := PumpFrom(s, pauseAt, write, 0);
    if callback.Some? then t.(events := t.events + [Called(callback.value)]) else t
  }

  /** The pump runs until the queue is empty or the message is paused. */
  lemma {:induction false} PumpStops(s: MessageState, pauseAt: set<nat>, write: DecodeStep, i: nat)
    ensures var r := PumpFrom(s, pauseAt, write, i); r.pendings == [] || Paused in r.flags
    decreases |s.pendings|
  {
    if Paused !in s.flags && s.pendings != [] {
      PumpStops(PumpOnce(s, pauseAt, write, i), pauseAt, write, i + 1);
    }
  }

  /** One pass never emits a second `end`. */
  lemma PumpOnceKeepsEndOnce(s: MessageState, pauseAt: set<nat>, write: DecodeStep, i: nat)
    requires s.pendings != [] && EndOnce(s)
    ensures EndOnce(PumpOnce(s, pauseAt, write, i))
  {
    var rest := s.(pendings := s.pendings[1..]);
    match s.pendings[0]
    case Some(buf) =>
      EmitDataKeepsEndOnce(rest, buf, write);
    case None =>
      EmitEndOnce(rest.(flags := rest.flags - {Readable}));
  }

  /** The pump never emits `end` twice. */
  lemma {:induction false} PumpKeepsEndOnce(s: MessageState, pauseAt: set<nat>, write: DecodeStep, i: nat)
    requires EndOnce(s)
    ensures EndOnce(PumpFrom(s, pauseAt, write, i))
    decreases |s.pendings|
  {
    if Paused !in s.flags && s.pendings != [] {
      PumpOnceKeepsEndOnce(s, pauseAt, write, i);
      PumpKeepsEndOnce(PumpOnce(s, pauseAt, write, i), pauseAt, write, i + 1);
    }
  }

  /** The raw data events for a run of queued chunks, in queue order. */
  function RawEvents(p: seq<Option<Bytes>>): (es: seq<Event>)
    ensures |es| <= |p|
    decreases |p|
  {
    if p == [] then []
    else (if p[0].Some? then [Data(Raw(p[0].value))] else []) + RawEvents(p[1..])
  }

  predicate EndsWithSentinel(p: seq<Option<Bytes>>)
  {
    p != [] && p[|p| - 1].None?
  }

  /** A pass over a real chunk without a decoder emits it and pauses iff
      its dequeue number is in `pauseAt`. */
  lemma PumpOnceRaw(s: MessageState, pauseAt: set<nat>, write: DecodeStep, i: nat)
    requires s.decoder.None? && s.pendings != [] && s.pendings[0].Some?
    ensures var r := PumpOnce(s, pauseAt, write, i);
      r.decoder.None? && r.events == s.events + [Data(Raw(s.pendings[0].value))] &&
      r.flags == (if i in pauseAt then s.flags + {Paused} else s.flags)
  {
  }

  /** A pass over the null chunk clears READABLE, sets END_EMITTED and emits
      `end` unless it was emitted before. */
  lemma PumpOnceSentinel(s: MessageState, pauseAt: set<nat>, write: DecodeStep, i: nat)
    requires s.pendings != [] && s.pendings[0].None?
    ensures var r := PumpOnce(s, pauseAt, write, i);
      r.decoder == s.decoder &&
      r.events == s.events + (if EndEmitted in s.flags then [] else [End]) &&
      r.flags == s.flags - {Readable} + {EndEmitted}
  {
  }

  lemma SentinelLastTail(p: seq<Option<Bytes>>)
    requires p != [] && SentinelLast(p)
    ensures SentinelLast(p[1..])
    ensures p[0].None? ==> |p| == 1
    ensures |p| > 1 ==> EndsWithSentinel(p[1..]) == EndsWithSentinel(p)
  {
    forall k | 0 <= k < |p[1..]| - 1
      ensures p[1..][k].Some?
    {
      assert p[1..][k] == p[k + 1];
    }
  }

  /** The `end` a drained queue adds: one for the null chunk, unless `end`
      was emitted before. */
  function EndTail(s: MessageState): (es: seq<Event>)
  {
    if EndsWithSentinel(s.pendings) && EndEmitted !in s.flags then [End] else []
  }

  /** `r` is `s` with its queue drained: every chunk emitted in FIFO order,
      then `end` for the null chunk, READABLE cleared iff it was met. */
  predicate Drained(s: MessageState, r: MessageState)
  {
    r.pendings == [] && Paused !in r.flags &&
    r.events == s.events + RawEvents(s.pendings) + EndTail(s) &&
    (Readable in r.flags <==> Readable in s.flags && !EndsWithSentinel(s.pendings)) &&
    (EndEmitted in r.flags <==> EndEmitted in s.flags || EndsWithSentinel(s.pendings))
  }

  lemma DrainedAfterChunk(s: MessageState, t: MessageState, r: MessageState)
    requires s.pendings != [] && s.pendings[0].Some? && SentinelLast(s.pendings)
    requires t.pendings == s.pendings[1..] && t.flags == s.flags
    requires t.events == s.events + [Data(Raw(s.pendings[0].value))]
    requires Drained(t, r)
    ensures Drained(s, r)
  {
    SentinelLastTail(s.pendings);
    assert RawEvents(s.pendings) == [Data(Raw(s.pendings[0].value))] + RawEvents(t.pendings);
  }

  lemma DrainedAtSentinel(s: MessageState, t: MessageState)
    requires s.pendings != [] && s.pendings[0].None? && SentinelLast(s.pendings)
    requires t.pendings == s.pendings[1..] && t.flags == s.flags - {Readable} + {EndEmitted}
    requires t.events == s.events + (if EndEmitted in s.flags then [] else [End])
    requires Paused !in s.flags
    ensures Drained(s, t)
  {
    SentinelLastTail(s.pendings);
    assert RawEvents(s.pendings) == [] + RawEvents(s.pendings[1..]);
  }

  /** Without a decoder and without a pause, the pump emits every queued
      chunk in FIFO order, then `end` for the null chunk (unless already
      emitted), empties the queue, and clears READABLE iff it met the null
      chunk. */
  lemma {:induction false} PumpDrainsInOrder(s: MessageState, pauseAt: set<nat>, write: DecodeStep, i: nat)
    requires s.decoder.None? && Paused !in s.flags && SentinelLast(s.pendings)
    requires forall k :: k in pauseAt ==> k < i
    ensures Drained(s, PumpFrom(s, pauseAt, write, i))
    decreases |s.pendings|, 1
  {
    if s.pendings == [] {
      PumpDrainsEmpty(s, pauseAt, write, i);
    } else if s.pendings[0].Some? {
      PumpDrainsChunk(s, pauseAt, write, i);
    } else {
      PumpDrainsSentinel(s, pauseAt, write, i);
    }
  }

  lemma PumpDrainsEmpty(s: MessageState, pauseAt: set<nat>, write: DecodeStep, i: nat)
    requires Paused !in s.flags && s.pendings == []
    ensures Drained(s, PumpFrom(s, pauseAt, write, i))
  {
    assert RawEvents(s.pendings) == [];
  }

  lemma PumpDrainsSentinel(s: MessageState, pauseAt: set<nat>, write: DecodeStep, i: nat)
    requires Paused !in s.flags && SentinelLast(s.pendings)
    requires s.pendings != [] && s.pendings[0].None?
    ensures Drained(s, PumpFrom(s, pauseAt, write, i))
  {
    var t := PumpOnce(s, pauseAt, write, i);
    assert PumpFrom(s, pauseAt, write, i) == PumpFrom(t, pauseAt, write, i + 1);
    SentinelLastTail(s.pendings);
    PumpOnceSentinel(s, pauseAt, write, i);
    DrainedAtSentinel(s, t);
  }

  lemma {:induction false} PumpDrainsChunk(s: MessageState, pauseAt: set<nat>, write: DecodeStep, i: nat)
    requires s.decoder.None? && Paused !in s.flags && SentinelLast(s.pendings)
    requires forall k :: k in pauseAt ==> k < i
    requires s.pendings != [] && s.pendings[0].Some?
    ensures Drained(s, PumpFrom(s, pauseAt, write, i))
    decreases |s.pendings|, 0
  {
    var t := PumpOnce(s, pauseAt, write, i);
    assert PumpFrom(s, pauseAt, write, i) == PumpFrom(t, pauseAt, write, i + 1);
    SentinelLastTail(s.pendings);
    assert i !in pauseAt;
    PumpOnceRaw(s, pauseAt, write, i);
    PumpDrainsInOrder(t, pauseAt, write, i + 1);
    DrainedAfterChunk(s, t, PumpFrom(t, pauseAt, write, i + 1));
  }

  /** Every entry is a real chunk (no null chunk among them). */
  predicate Chunks(p: seq<Option<Bytes>>)
  {
    forall k :: 0 <= k < |p| ==> p[k].Some?
  }

  /** No dequeue from i up to, not including, j has a pausing listener. */
  predicate NoPauseBetween(pauseAt: set<nat>, i: nat, j: nat)
  {
    forall k :: i <= k < j ==> k !in pauseAt
  }

  /** Without a decoder, a pause requested by the data event of dequeue j
      stops the pump right after that chunk: chunks i..j are emitted in
      order and the rest stays queued. */
  lemma {:induction false} PumpPausesAfter(s: MessageState, pauseAt: set<nat>, write: DecodeStep, i: nat, j: nat)
    requires s.decoder.None? && Paused !in s.flags
    requires i <= j < i + |s.pendings|
    requires Chunks(s.pendings[..j - i + 1])
    requires j in pauseAt && NoPauseBetween(pauseAt, i, j)
    ensures var r := PumpFrom(s, pauseAt, write, i);
      r.pendings == s.pendings[j - i + 1..] && Paused in r.flags &&
      r.events == s.events + RawEvents(s.pendings[..j - i + 1])
    decreases j - i, 1
  {
    if i == j {
      PumpPausesHere(s, pauseAt, write, i);
    } else {
      PumpPausesLater(s, pauseAt, write, i, j);
    }
  }

  lemma PumpPausesHere(s: MessageState, pauseAt: set<nat>, write: DecodeStep, i: nat)
    requires s.decoder.None? && Paused !in s.flags
    requires s.pendings != [] && s.pendings[0].Some? && i in pauseAt
    ensures var r := PumpFrom(s, pauseAt, write, i);
      r.pendings == s.pendings[1..] && Paused in r.flags &&
      r.events == s.events + RawEvents(s.pendings[..1])
  {
    var t := PumpOnce(s, pauseAt, write, i);
    PumpOnceRaw(s, pauseAt, write, i);
    assert PumpFrom(s, pauseAt, write, i) == PumpFrom(t, pauseAt, write, i + 1);
    assert RawEvents(s.pendings[..1]) == [Data(Raw(s.pendings[0].value))] + RawEvents([]);
  }

  lemma {:induction false} PumpPausesLater(s: MessageState, pauseAt: set<nat>, write: DecodeStep, i: nat, j: nat)
    requires s.decoder.None? && Paused !in s.flags
    requires i < j < i + |s.pendings|
    requires Chunks(s.pendings[..j - i + 1])
    requires j in pauseAt && NoPauseBetween(pauseAt, i, j)
    ensures var r := PumpFrom(s, pauseAt, write, i);
      r.pendings == s.pendings[j - i + 1..] && Paused in r.flags &&
      r.events == s.events + RawEvents(s.pendings[..j - i + 1])
    decreases j - i, 0
  {
    var t := PumpOnce(s, pauseAt, write, i);
    assert s.pendings[..j - i + 1][0] == s.pendings[0];
    assert i !in pauseAt;
    PumpOnceChunk(s, pauseAt, write, i);
    PumpFromStep(s, pauseAt, write, i);
    ChunksTail(s.pendings, j - i);
    PumpPausesAfter(t, pauseAt, write, i + 1, j);
    var r := PumpFrom(t, pauseAt, write, i + 1);
    RawEventsTail(s.pendings, j - i + 1, s.events, t.events, r.events);
  }

  /** The loop with PAUSED clear and a chunk queued runs one pass, then goes on. */
  lemma PumpFromStep(s: MessageState, pauseAt: set<nat>, write: DecodeStep, i: nat)
    requires Paused !in s.flags && s.pendings != []
    ensures PumpFrom(s, pauseAt, write, i) == PumpFrom(PumpOnce(s, pauseAt, write, i), pauseAt, write, i + 1)
  {
  }

  /** The loop with PAUSED set or nothing queued does nothing. */
  lemma PumpFromDone(s: MessageState, pauseAt: set<nat>, write: DecodeStep, i: nat)
    requires Paused in s.flags || s.pendings == []
    ensures PumpFrom(s, pauseAt, write, i) == s
  {
  }

  /** Without a decoder and without a pause, a pass over a real chunk emits
      it and leaves the decoder and the flags as they were. */
  lemma PumpOnceChunk(s: MessageState, pauseAt: set<nat>, write: DecodeStep, i: nat)
    requires s.decoder.None? && Paused !in s.flags
    requires s.pendings != [] && s.pendings[0].Some? && i !in pauseAt
    ensures var t := PumpOnce(s, pauseAt, write, i);
      t.decoder.None? && Paused !in t.flags && t.pendings == s.pendings[1..] &&
      t.events == s.events + [Data(Raw(s.pendings[0].value))]
  {
    PumpOnceRaw(s, pauseAt, write, i);
  }

  /** The first m + 1 entries being chunks, the first m of the tail are. */
  lemma ChunksTail(p: seq<Option<Bytes>>, m: nat)
    requires 1 <= m < |p| && Chunks(p[..m + 1])
    ensures Chunks(p[1..][..m])
  {
    forall k | 0 <= k < m
      ensures p[1..][..m][k].Some?
    {
      assert p[1..][..m][k] == p[..m + 1][k + 1];
    }
  }

  /** Emitting the first chunk, then the first n - 1 of the rest, emits the
      first n chunks; what stays queued is the same either way. */
  lemma RawEventsTail(p: seq<Option<Bytes>>, n: nat, e0: seq<Event>, e1: seq<Event>, e2: seq<Event>)
    requires 1 <= n <= |p| && p[0].Some?
    requires e1 == e0 + [Data(Raw(p[0].value))]
    requires e2 == e1 + RawEvents(p[1..][..n - 1])
    ensures e2 == e0 + RawEvents(p[..n])
    ensures p[1..][n - 1..] == p[n..]
  {
    assert p[..n][1..] == p[1..][..n - 1];
    assert RawEvents(p[..n]) == [Data(Raw(p[0].value))] + RawEvents(p[1..][..n - 1]);
  }

  // ---------------------------------------------------------------------
  // The invariant of a message
  // ---------------------------------------------------------------------

  /** The null chunk is last in the queue, and `end` was emitted at most once. */
  predicate ValidState(s: MessageState)
  {
    SentinelLast(s.pendings) && EndOnce(s)
  }

  lemma EmitDataKeepsValid(s: MessageState, buf: Bytes, write: DecodeStep)
    requires ValidState(s)
    ensures ValidState(AfterEmitData(s, buf, write))
  {
    EmitDataKeepsEndOnce(s, buf, write);
  }

  lemma EmitEndKeepsValid(s: MessageState)
    requires ValidState(s)
    ensures ValidState(AfterEmitEnd(s))
  {
    EmitEndOnce(s);
  }

  /** Setting any flag, or clearing any but END_EMITTED, keeps the invariant. */
  lemma FlagsKeepValid(s: MessageState, fs: set<Flag>)
    requires ValidState(s) && (EndEmitted in s.flags ==> EndEmitted in fs)
    ensures ValidState(s.(flags := fs))
  {
  }

  lemma CallbackKeepsValid(s: MessageState, cb: Callback)
    requires ValidState(s)
    ensures ValidState(s.(events := s.events + [Called(cb)]))
  {
    CountEndSnoc(s.events, Called(cb));
  }

  lemma DropKeepsValid(s: MessageState)
    requires ValidState(s) && s.pendings != []
    ensures ValidState(s.(pendings := s.pendings[1..]))
  {
    SentinelLastTail(s.pendings);
  }

  lemma AddPendingKeepsValid(s: MessageState, chunk: Option<Bytes>)
    requires ValidState(s) && forall i :: 0 <= i < |s.pendings| ==> s.pendings[i].Some?
    ensures ValidState(s.(pendings := s.pendings + [chunk]))
  {
    var p := s.pendings + [chunk];
    forall k | 0 <= k < |p| - 1
      ensures p[k].Some?
    {
      assert p[k] == s.pendings[k];
    }
  }

  lemma SentinelLastSuffix(p: seq<Option<Bytes>>, k: nat)
    requires SentinelLast(p) && k <= |p|
    ensures SentinelLast(p[k..])
  {
    forall m | 0 <= m < |p[k..]| - 1
      ensures p[k..][m].Some?
    {
      assert p[k..][m] == p[k + m];
    }
  }

  /** The whole pump keeps the invariant. */
  lemma PumpKeepsValid(s: MessageState, callback: Option<Callback>, pauseAt: set<nat>, write: DecodeStep)
    requires ValidState(s)
    ensures ValidState(AfterPump(s, callback, pauseAt, write))
  {
    var t := PumpFrom(s, pauseAt, write, 0);
    PumpKeepsEndOnce(s, pauseAt, write, 0);
    SentinelLastSuffix(s.pendings, |s.pendings| - |t.pendings|);
    if callback.Some? {
      CallbackKeepsValid(t, callback.value);
    }
  }

  // ---------------------------------------------------------------------
  // The message object
  // ---------------------------------------------------------------------

  /** IncomingMessage::create: a message for a socket, null without one. */
  method Create(sock: Option<SocketId>) returns (m: IncomingMessage?)
    ensures sock.None? <==> m == null
    ensures m != null ==> fresh(m) && m.Valid() && m.State() == Initial(sock.value) && m.ticks == []
  {
    if sock.Some? {
      m := new IncomingMessage(sock.value);
    } else {
      m := null;
    }
  }

  class IncomingMessage {
    var socket: SocketId
    var statusCode: int
    var httpVersion: Option<string>
    var headers: HeaderMap
    var trailers: HeaderMap
    var url: Option<string>
    var httpMethod: Option<string>
    var pendings: seq<Option<Bytes>>
    var decoder: Option<Decoder>
    var flags: set<Flag>
    /** Everything emitted, and every callback run, in order. */
    var events: seq<Event>
    /** The pumps handed to process::nextTick, oldest first. */
    var ticks: seq<EmitPendingTask>

    function State(): MessageState
      reads this
    {
      MessageState(socket, statusCode, httpVersion, headers, trailers, url, httpMethod,
                   pendings, decoder, flags, events)
    }

    predicate Valid()
      reads this
    {
      ValidState(State())
    }

    constructor(sock: SocketId)
      ensures Valid() && State() == Initial(sock) && ticks == []
    {
      socket := sock;
      statusCode := 0;
      httpVersion := None;
      headers := map[];
      trailers := map[];
      url := Some("");
      httpMethod := None;
      pendings := [];
      decoder := None;
      flags := {Readable};
      events := [];
      ticks := [];
    }

    /** readable(). */
    function IsReadable(): (b: bool)
      reads this
      ensures b <==> Readable in State().flags
    {
      Readable in flags
    }

    /** FlagMixin::hasFlag. */
    function HasFlag(f: Flag): (b: bool)
      reads this
      ensures b <==> f in State().flags
    {
      f in flags
    }

    /** FlagMixin::setFlag. */
    method SetFlag(f: Flag)
      requires Valid()
      modifies this
      ensures Valid()
      ensures State() == old(State()).(flags := old(flags) + {f}) && ticks == old(ticks)
    {
      ghost var s := State();
      flags := flags + {f};
      assert State() == s.(flags := s.flags + {f});
      FlagsKeepValid(s, s.flags + {f});
    }

    /** FlagMixin::unsetFlag; clearing END_EMITTED would let `end` be emitted
        again, so the invariant is kept for the other flags. */
    method UnsetFlag(f: Flag)
      requires Valid()
      modifies this
      ensures f != EndEmitted ==> Valid()
      ensures State() == old(State()).(flags := old(flags) - {f}) && ticks == old(ticks)
    {
      ghost var s := State();
      flags := flags - {f};
      assert State() == s.(flags := s.flags - {f});
      if f != EndEmitted {
        FlagsKeepValid(s, s.flags - {f});
      }
    }

    /** setStatusCode, setHttpVersion, setUrl and setMethod: the parser's
        one-time setters, each changing its own field only. */
    method SetStatusCode(code: int)
      requires Valid()
      modifies this
      ensures Valid()
      ensures State() == old(State()).(statusCode := code) && ticks == old(ticks)
    {
      statusCode := code;
    }

    method SetHttpVersion(version: Option<string>)
      requires Valid()
      modifies this
      ensures Valid()
      ensures State() == old(State()).(httpVersion := version) && ticks == old(ticks)
    {
      httpVersion := version;
    }

    method SetUrl(u: Option<string>)
      requires Valid()
      modifies this
      ensures Valid()
      ensures State() == old(State()).(url := u) && ticks == old(ticks)
    {
      url := u;
    }

    method SetMethod(m: Option<string>)
      requires Valid()
      modifies this
      ensures Valid()
      ensures State() == old(State()).(httpMethod := m) && ticks == old(ticks)
    {
      httpMethod := m;
    }

    /** getHeader. */
    function GetHeader(name: string): (r: Option<string>)
      reads this
      ensures r == HeaderText(State().headers, name)
    {
      if name in headers && headers[name].Text? then Some(headers[name].s) else None
    }

    /** setHeader. */
    method SetHeader(name: string, value: string)
      requires Valid()
      modifies this
      ensures Valid()
      ensures State() == AfterSetHeader(old(State()), name, value) && ticks == old(ticks)
    {
      ghost var s := State();
      headers := headers[ToLower(name) := Text(value)];
      assert State() == AfterSetHeader(s, name, value);
    }

    /** addHeaderLine. */
    method AddHeaderLine(name: string, value: string)
      requires Valid()
      modifies this
      ensures Valid()
      ensures State() == AfterAddHeaderLine(old(State()), name, value) && ticks == old(ticks)
    {
      ghost var s := State();
      var field := ToLower(name);
      var toTrailers := Complete in flags;
      if field == SET_COOKIE {
        if field in headers && headers[field].List? {
          headers := headers[field := List(headers[field].items + [value])];
        } else if toTrailers {
          trailers := trailers[field := List([value])];
        } else {
          headers := headers[field := List([value])];
        }
      } else {
        var v := Text(value);
        if Joined(field) && field in headers && headers[field].Text? {
          v := Text(headers[field].s + ", " + value);
        }
        if toTrailers {
          trailers := trailers[field := v];
        } else {
          headers := headers[field := v];
        }
      }
      assert State() == AfterAddHeaderLine(s, name, value);
    }

    /** setEncoding: `created` is whether StringDecoder::create succeeded. */
    method SetEncoding(enc: Encoding, created: bool) returns (ok: bool)
      requires Valid()
      modifies this
      ensures Valid() && ok == created
      ensures State() == AfterSetEncoding(old(State()), enc, created) && ticks == old(ticks)
    {
      ghost var s := State();
      if created {
        decoder := Some(Decoder(enc, []));
      } else {
        decoder := None;
      }
      ok := decoder.Some?;
      assert State() == AfterSetEncoding(s, enc, created);
    }

    /** hasEncoding. */
    function HasEncoding(): (b: bool)
      reads this
      ensures b <==> State().decoder.Some?
    {
      decoder.Some?
    }

    /** getEncoding. */
    function GetEncoding(): (e: Encoding)
      reads this
      ensures e == EncodingOf(State())
    {
      if decoder.Some? then decoder.value.encoding else NoEncoding
    }

    /** A chunk appended, by the parser, to the list getPendings returns:
        nothing may follow the null chunk. */
    method AddPending(chunk: Option<Bytes>)
      requires Valid() && forall i :: 0 <= i < |pendings| ==> pendings[i].Some?
      modifies this
      ensures Valid()
      ensures State() == old(State()).(pendings := old(pendings) + [chunk]) && ticks == old(ticks)
    {
      ghost var s := State();
      pendings := pendings + [chunk];
      assert State() == s.(pendings := s.pendings + [chunk]);
      AddPendingKeepsValid(s, chunk);
    }

    /** emitData. */
    method EmitData(buf: Bytes, write: DecodeStep)
      requires Valid()
      modifies this
      ensures Valid()
      ensures State() == AfterEmitData(old(State()), buf, write) && ticks == old(ticks)
    {
      ghost var s := State();
      if decoder.Some? {
        var out := write(decoder.value.encoding, decoder.value.carry, buf);
        decoder := Some(decoder.value.(carry := out.1));
        if out.0 != [] {
          events := events + [Data(Decoded(out.0))];
        }
      } else {
        events := events + [Data(Raw(buf))];
      }
      assert State() == AfterEmitData(s, buf, write);
      EmitDataKeepsValid(s, buf, write);
    }

    /** emitEnd. */
    method EmitEnd()
      requires Valid()
      modifies this
      ensures Valid()
      ensures State() == AfterEmitEnd(old(State())) && ticks == old(ticks)
    {
      ghost var s := State();
      if EndEmitted !in flags {
        events := events + [End];
      }
      flags := flags + {EndEmitted};
      assert State() == AfterEmitEnd(s);
      EmitEndKeepsValid(s);
    }

    /** emitPending: with nothing queued the callback runs at once and nothing
        is deferred; otherwise exactly one pump is handed to nextTick. */
    method EmitPending(callback: Option<Callback>)
      requires Valid()
      modifies this
      ensures Valid()
      ensures old(pendings) == [] ==>
        ticks == old(ticks) &&
        State() == old(State()).(events := old(events) + if callback.Some? then [Called(callback.value)] else [])
      ensures old(pendings) != [] ==>
        State() == old(State()) && |ticks| == |old(ticks)| + 1 && ticks[..|old(ticks)|] == old(ticks) &&
        fresh(ticks[|old(ticks)|]) && ticks[|old(ticks)|].target == this &&
        ticks[|old(ticks)|].callback == callback
    {
      ghost var s := State();
      if pendings == [] {
        if callback.Some? {
          events := events + [Called(callback.value)];
          assert State() == s.(events := s.events + [Called(callback.value)]);
          CallbackKeepsValid(s, callback.value);
        }
      } else {
        var task := new EmitPendingTask(this, callback);
        ticks := ticks + [task];
        assert State() == s;
      }
    }
  }

  /** The deferred pump that emitPending hands to nextTick. */
  class EmitPendingTask {
    const target: IncomingMessage
    const callback: Option<Callback>

    constructor(incoming: IncomingMessage, cb: Option<Callback>)
      ensures target == incoming && callback == cb
    {
      target := incoming;
      callback := cb;
    }

    /** One pass of the loop of operator(): dequeue the first chunk, emit it,
        or meet the null chunk and end the stream. */
    method Pass(pauseAt: set<nat>, write: DecodeStep, i: nat)
      requires target.Valid() && Paused !in target.flags && target.pendings != []
      modifies target
      ensures target.Valid()
      ensures target.State() == PumpOnce(old(target.State()), pauseAt, write, i)
      ensures target.ticks == old(target.ticks)
    {
      ghost var s := target.State();
      var chunk := target.pendings[0];
      target.pendings := target.pendings[1..];
      assert target.State() == s.(pendings := s.pendings[1..]);
      DropKeepsValid(s);
      if chunk.Some? {
        var before := |target.events|;
        target.EmitData(chunk.value, write);
        if i in pauseAt && |target.events| > before {
          target.SetFlag(Paused);
        }
      } else {
        assert target.pendings == [];
        target.UnsetFlag(Readable);
        target.EmitEnd();
      }
    }

    /** operator(): pump the queue while the message is not paused, then run
        the callback. */
    method Call(pauseAt: set<nat>, write: DecodeStep)
      requires target.Valid()
      modifies target
      ensures target.Valid()
      ensures target.State() == AfterPump(old(target.State()), callback, pauseAt, write)
      ensures target.ticks == old(target.ticks)
    {
      var i: nat := 0;
      while Paused !in target.flags && |target.pendings| > 0
        invariant target.Valid()
        invariant PumpFrom(target.State(), pauseAt, write, i) == PumpFrom(old(target.State()), pauseAt, write, 0)
        invariant target.ticks == old(target.ticks)
        decreases |target.pendings|
      {
        ghost var s := target.State();
        Pass(pauseAt, write, i);
        PumpFromStep(s, pauseAt, write, i);
        i := i + 1;
      }
      ghost var t := target.State();
      PumpFromDone(t, pauseAt, write, i);
      if callback.Some? {
        target.events := target.events + [Called(callback.value)];
        assert target.State() == t.(events := t.events + [Called(callback.value)]);
        CallbackKeepsValid(t, callback.value);
      }
    }
  }
}
