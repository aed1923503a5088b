/** A connection of httpd.c: chunks feed the parser, the parser fills the environment, the
    environment gives the Host, and the answer goes out over the same connection. */
module Httpd {
  import opened Bytes
  import opened Buffers
  import opened Channels
  import opened HttpParsing
  import opened HttpStream
  import E = Env

  const METHOD_MAX: nat := 16
  const URI_MAX: nat := 512
  /** The size of the heap of `struct env`. */
  const HEADERS_MAX: nat := 2040

  const HOST: seq<char> := "Host"

  /** What service_start finds for a method, a host and a URI: nothing, a module that does not answer,
      or a module and the calls with which it answers given headers. */
  datatype Answer = NoService | NoHandler | Handler(reply: seq<E.Binding> -> seq<Call>)

  type Service = (seq<char>, seq<char>, seq<char>) -> Answer

  /** The value of a connection beside its parser. */
  datatype Conn = Conn(verb: seq<char>, uri: seq<char>, headers: seq<E.Binding>, wire: Wire)

  /** The calls of on_header_done for a host. */
  function AnswerCalls(serve: Service, c: Conn, host: Option<seq<char>>): seq<Call> {
    match host
    case None => [Response(400), EndHeaders, Done]
    case Some(h) =>
      match serve(c.verb, h, c.uri)
      case NoService => [Response(404), EndHeaders, Done]
      case NoHandler => [Response(501), EndHeaders, Done]
      case Handler(reply) => reply(c.headers)
  }

  /** The callbacks.  Method and URI are cut by `snprintf` as a buffer of that size would cut them. */
  function Handle(serve: Service, c: Conn, e: Event): Conn {
    match e
    case Method(verb, uri) => c.(verb := Kept(verb, METHOD_MAX), uri := Kept(uri, URI_MAX))
    case Header(name, value) => c.(headers := E.Set(c.headers, HEADERS_MAX, E.Binding(name, value)))
    case HeaderDone =>
      c.(wire := PerformAll(c.wire, AnswerCalls(serve, c, E.Lookup(c.headers, HOST))))
    case Body(_) => c
  }

  function HandleAll(serve: Service, c: Conn, es: seq<Event>): Conn {
    if es == [] then c else Handle(serve, HandleAll(serve, c, es[..|es| - 1]), es[|es| - 1])
  }

  /** The answer to a parse failure. */
  function Finish(c: Conn, ok: bool): Conn {
    if ok then c else c.(wire := PerformAll(c.wire, [Response(500), EndHeaders]))
  }

  /** A connection and its parser when `httpd_process` returns. */
  datatype Outcome = Outcome(c: Conn, hp: Hp)

  /** `httpd_process` */
  function Process(serve: Service, hp: Hp, c: Conn, packets: seq<seq<char>>): Outcome
    decreases Backlog(packets)
  {
    ReadTakesFront(packets, CHUNK_SIZE);
    var got := Received(packets, CHUNK_SIZE);
    if c.wire.done || got == [] then Outcome(c, hp)
    else
      var r := Run(hp, got);
      var after := HandleAll(serve, c, NewEvents(hp, r.hp));
      if r.ok then Process(serve, r.hp, after, Remaining(packets, CHUNK_SIZE)) else Outcome(Finish(after, false), r.hp)
  }

  /** One round of its loop. */
  lemma OneRound(serve: Service, hp: Hp, c: Conn, packets: seq<seq<char>>, got: seq<char>)
    requires !c.wire.done && got == Received(packets, CHUNK_SIZE)
    ensures got == [] ==> Process(serve, hp, c, packets) == Outcome(c, hp)
    ensures got != [] ==>
              var r := Run(hp, got);
              var after := HandleAll(serve, c, NewEvents(hp, r.hp));
              && Backlog(Remaining(packets, CHUNK_SIZE)) < Backlog(packets)
              && Process(serve, hp, c, packets) ==
                 if r.ok then Process(serve, r.hp, after, Remaining(packets, CHUNK_SIZE))
                 else Outcome(Finish(after, false), r.hp)
  {
    ReadTakesFront(packets, CHUNK_SIZE);
  }

  /** The reports that a call has added. */
  function NewEvents(before: Hp, after: Hp): seq<Event> {
    if before.log <= after.log then after.log[|before.log|..] else []
  }

  // ---------- The reports of a call

  lemma {:induction false} LogGrows(hp: Hp, input: seq<char>)
    ensures hp.log <= Run(hp, input).hp.log
    decreases |input|
  {
    if input != [] && hp.state != Data && Step(hp, input[0]).ok {
      LogGrows(Step(hp, input[0]).hp, input[1..]);
    }
  }

  lemma {:induction false} HandleAppend(serve: Service, c: Conn, a: seq<Event>, b: seq<Event>)
    ensures HandleAll(serve, c, a + b) == HandleAll(serve, HandleAll(serve, c, a), b)
    decreases |b|
  {
    if b == [] {
      assert a + b == a;
    } else {
      var init, last := b[..|b| - 1], b[|b| - 1];
      assert (a + b)[..|a + b| - 1] == a + init;
      HandleAppend(serve, c, a, init);
    }
  }

  /** Body reports change nothing, so merging them changes nothing. */
  lemma {:induction false} HandleCoalesced(serve: Service, c: Conn, log: seq<Event>)
    ensures HandleAll(serve, c, Coalesce(log)) == HandleAll(serve, c, log)
    decreases |log|
  {
    if log != [] {
      var init, e := log[..|log| - 1], log[|log| - 1];
      var merged := Coalesce(init);
      HandleCoalesced(serve, c, init);
      var all := Snoc(merged, e);
      if e.Body? && merged != [] && merged[|merged| - 1].Body? {
        assert all[..|all| - 1] == merged[..|merged| - 1];
      } else {
        assert all[..|all| - 1] == merged;
      }
    }
  }

  /** Only header-done touches the connection. */
  lemma {:induction false} SilentBeforeDone(serve: Service, c: Conn, log: seq<Event>)
    requires UpTo(log, 1)
    ensures HandleAll(serve, c, log).wire == c.wire
  {
    if log != [] {
      SilentBeforeDone(serve, c, log[..|log| - 1]);
    }
  }

  // ---------- What is reported depends on the stream alone

  /** The connection when everything that arrives is parsed in one call. */
  function OneShot(serve: Service, c: Conn, stream: seq<char>): Conn {
    var r := Run(INIT, stream);
    Finish(HandleAll(serve, c, r.hp.log), r.ok)
  }

  lemma SameConn(serve: Service, c: Conn, r: Result, r': Result)
    requires Same(r, r')
    ensures Finish(HandleAll(serve, c, r.hp.log), r.ok) == Finish(HandleAll(serve, c, r'.hp.log), r'.ok)
  {
    HandleCoalesced(serve, c, r.hp.log);
    HandleCoalesced(serve, c, r'.hp.log);
  }

  lemma {:induction false} ProcessFrom(serve: Service, c: Conn, hp: Hp, packets: seq<seq<char>>)
    requires InOrder(hp) && !c.wire.done
    ensures var r := Run(hp, Delivered(packets));
            Process(serve, hp, HandleAll(serve, c, hp.log), packets).c == Finish(HandleAll(serve, c, r.hp.log), r.ok)
    decreases Backlog(packets)
  {
    var now, got := HandleAll(serve, c, hp.log), Received(packets, CHUNK_SIZE);
    ReadTakesFront(packets, CHUNK_SIZE);
    if hp.state != Data {
      SilentBeforeDone(serve, c, hp.log);
    }
    if now.wire.done {
      BodyIsIgnored(serve, c, hp, Delivered(packets));
    } else if got != [] {
      var r, later := Run(hp, got), Remaining(packets, CHUNK_SIZE);
      NewEventsHandled(serve, c, hp, got);
      RunSplit(hp, got, Delivered(later));
      if r.ok {
        RunKeepsOrder(hp, got);
        ProcessFrom(serve, c, r.hp, later);
        SameConn(serve, c, Run(r.hp, Delivered(later)), Run(hp, got + Delivered(later)));
      }
    }
  }

  lemma NewEventsHandled(serve: Service, c: Conn, hp: Hp, got: seq<char>)
    ensures var r := Run(hp, got);
            HandleAll(serve, HandleAll(serve, c, hp.log), NewEvents(hp, r.hp)) == HandleAll(serve, c, r.hp.log)
  {
    var r := Run(hp, got);
    LogGrows(hp, got);
    HandleAppend(serve, c, hp.log, NewEvents(hp, r.hp));
    assert r.hp.log == hp.log + NewEvents(hp, r.hp);
  }

  lemma BodyIsIgnored(serve: Service, c: Conn, hp: Hp, input: seq<char>)
    requires hp.state == Data
    ensures var r := Run(hp, input); r.ok && HandleAll(serve, c, r.hp.log) == HandleAll(serve, c, hp.log)
  {
    if input != [] {
      assert (hp.log + [Body(input)])[..|hp.log|] == hp.log;
    }
  }

  /** Main result: method, URI, headers and everything sent depend only on the bytes delivered before
      the first read that returns nothing, not on how they arrive. */
  lemma ReportsDependOnStream(serve: Service, c: Conn, packets: seq<seq<char>>)
    requires !c.wire.done
    ensures Process(serve, INIT, c, packets).c == OneShot(serve, c, Delivered(packets))
  {
    ProcessFrom(serve, c, INIT, packets);
  }

  // ---------- The Host

  /** The operations that header reports make on the environment. */
  function HeaderOps(log: seq<Event>): seq<E.Op> {
    if log == [] then []
    else
      HeaderOps(log[..|log| - 1]) +
      match log[|log| - 1]
      case Header(name, value) => [E.SetOp(E.Binding(name, value))]
      case _ => []
  }

  lemma {:induction false} HeadersAreReplayed(serve: Service, c: Conn, log: seq<Event>)
    requires c.headers == []
    ensures HandleAll(serve, c, log).headers == E.Replay(HEADERS_MAX, HeaderOps(log))
  {
    if log != [] {
      var init := log[..|log| - 1];
      HeadersAreReplayed(serve, c, init);
      if log[|log| - 1].Header? {
        var ops := HeaderOps(log);
        assert ops[..|ops| - 1] == HeaderOps(init);
      } else {
        assert HeaderOps(init) + [] == HeaderOps(init);
      }
    }
  }

  /** Main result: at header-done the Host is the value of the last header named exactly so, if that
      one fitted when it was set, and nothing otherwise, whatever other headers there were; and the
      answer is the one for that Host. */
  lemma HostIsNeverStale(serve: Service, c: Conn, log: seq<Event>)
    requires c.headers == []
    ensures var before := HandleAll(serve, c, log);
            var host := E.Current(HEADERS_MAX, HeaderOps(log), HOST);
            && E.Lookup(before.headers, HOST) == host
            && HandleAll(serve, c, log + [HeaderDone]).wire ==
               PerformAll(before.wire, AnswerCalls(serve, before, host))
  {
    HeadersAreReplayed(serve, c, log);
    E.LookupIsCurrent(HEADERS_MAX, HeaderOps(log), HOST);
    assert (log + [HeaderDone])[..|log|] == log;
  }

  // ---------- Which moves stay inside the heap

  lemma HeaderOpsSnoc(log: seq<Event>, e: Event)
    ensures HeaderOps(log + [e]) == HeaderOps(log) + if e.Header? then [E.SetOp(E.Binding(e.name, e.value))] else []
  {
    assert (log + [e])[..|log|] == log;
  }

  /** Merging pieces of body leaves the headers. */
  lemma {:induction false} HeaderOpsCoalesced(log: seq<Event>)
    ensures HeaderOps(Coalesce(log)) == HeaderOps(log)
    decreases |log|
  {
    if log != [] {
      var init, e := log[..|log| - 1], log[|log| - 1];
      var merged := Coalesce(init);
      HeaderOpsCoalesced(init);
      if e.Body? && merged != [] && merged[|merged| - 1].Body? {
        var front, last := merged[..|merged| - 1], merged[|merged| - 1];
        assert merged == front + [last];
        HeaderOpsSnoc(front, last);
        HeaderOpsSnoc(front, Body(last.bytes + e.bytes));
      } else {
        HeaderOpsSnoc(merged, e);
      }
    }
  }

  lemma SameHeaders(r: Result, r': Result)
    requires Same(r, r')
    ensures HeaderOps(r.hp.log) == HeaderOps(r'.hp.log)
  {
    HeaderOpsCoalesced(r.hp.log);
    HeaderOpsCoalesced(r'.hp.log);
  }

  lemma BodyHasNoHeaders(hp: Hp, input: seq<char>)
    requires hp.state == Data
    ensures HeaderOps(Run(hp, input).hp.log) == HeaderOps(hp.log)
  {
    if input != [] {
      HeaderOpsSnoc(hp.log, Body(input));
      assert HeaderOps(hp.log) + [] == HeaderOps(hp.log);
    }
  }

  /** The headers that a connection handles are those of the stream. */
  lemma {:induction false} HeadersDependOnStream(serve: Service, c: Conn, hp: Hp, packets: seq<seq<char>>)
    requires InOrder(hp) && !c.wire.done
    ensures HeaderOps(Process(serve, hp, HandleAll(serve, c, hp.log), packets).hp.log) ==
            HeaderOps(Run(hp, Delivered(packets)).hp.log)
    decreases Backlog(packets)
  {
    var now, got := HandleAll(serve, c, hp.log), Received(packets, CHUNK_SIZE);
    ReadTakesFront(packets, CHUNK_SIZE);
    if hp.state != Data {
      SilentBeforeDone(serve, c, hp.log);
    }
    if now.wire.done {
      BodyHasNoHeaders(hp, Delivered(packets));
    } else if got != [] {
      var r, later := Run(hp, got), Remaining(packets, CHUNK_SIZE);
      NewEventsHandled(serve, c, hp, got);
      RunSplit(hp, got, Delivered(later));
      if r.ok {
        RunKeepsOrder(hp, got);
        HeadersDependOnStream(serve, c, r.hp, later);
        SameHeaders(Run(r.hp, Delivered(later)), Run(hp, got + Delivered(later)));
      }
    }
  }

  /** The moves of a connection all fit exactly if in its stream, for every header that repeats a name
      in effect, the headers in effect before that name and all those in effect take at most
      `HEADERS_MAX` bytes together. */
  lemma HeaderMovesFit(serve: Service, c: Conn, packets: seq<seq<char>>)
    requires !c.wire.done
    ensures E.AllMovesFit(HEADERS_MAX, HeaderOps(Process(serve, INIT, c, packets).hp.log)) <==>
            E.RepeatsFit(HEADERS_MAX, HeaderOps(Run(INIT, Delivered(packets)).hp.log))
  {
    HeadersDependOnStream(serve, c, INIT, packets);
    E.HistoryFitsExactly(HEADERS_MAX, HeaderOps(Run(INIT, Delivered(packets)).hp.log));
  }

  /** What a header report adds to a history. */
  lemma HeaderTracked(log: seq<Event>, name: seq<char>, value: seq<char>)
    ensures var bs, ops := E.Replay(HEADERS_MAX, HeaderOps(log)), HeaderOps(log + [Event.Header(name, value)]);
            && E.Replay(HEADERS_MAX, ops) == E.Set(bs, HEADERS_MAX, E.Binding(name, value))
            && (E.AllMovesFit(HEADERS_MAX, ops) <==>
                E.AllMovesFit(HEADERS_MAX, HeaderOps(log)) && E.MoveFits(bs, HEADERS_MAX, name))
  {
    HeaderOpsSnoc(log, Event.Header(name, value));
    E.ReplaySnoc(HEADERS_MAX, HeaderOps(log), E.SetOp(E.Binding(name, value)));
    E.AllMovesFitSnoc(HEADERS_MAX, HeaderOps(log), E.SetOp(E.Binding(name, value)));
  }

  /** What reports do to the environment. */
  function HeadersAfter(bs: seq<E.Binding>, es: seq<Event>): seq<E.Binding> {
    if es == [] then bs else AfterEvent(HeadersAfter(bs, es[..|es| - 1]), es[|es| - 1])
  }

  function AfterEvent(bs: seq<E.Binding>, e: Event): seq<E.Binding> {
    if e.Header? then E.Set(bs, HEADERS_MAX, E.Binding(e.name, e.value)) else bs
  }

  /** They cause no move past the heap. */
  predicate EventsFit(bs: seq<E.Binding>, es: seq<Event>) {
    es == [] || (EventsFit(bs, es[..|es| - 1]) && EventFits(HeadersAfter(bs, es[..|es| - 1]), es[|es| - 1]))
  }

  predicate EventFits(bs: seq<E.Binding>, e: Event) {
    e.Header? ==> E.MoveFits(bs, HEADERS_MAX, e.name)
  }

  /** One report more. */
  lemma OneMore(serve: Service, c: Conn, bs: seq<E.Binding>, es: seq<Event>, i: nat)
    requires i < |es|
    ensures HandleAll(serve, c, es[..i + 1]) == Handle(serve, HandleAll(serve, c, es[..i]), es[i])
    ensures HeadersAfter(bs, es[..i + 1]) == AfterEvent(HeadersAfter(bs, es[..i]), es[i])
    ensures EventsFit(bs, es[..i + 1]) <==> EventsFit(bs, es[..i]) && EventFits(HeadersAfter(bs, es[..i]), es[i])
  {
    assert es[..i + 1][..i] == es[..i];
  }

  /** One report continues the history that `log` has begun. */
  lemma EventTracked(bs: seq<E.Binding>, log: seq<Event>, e: Event)
    requires bs == E.Replay(HEADERS_MAX, HeaderOps(log))
    ensures AfterEvent(bs, e) == E.Replay(HEADERS_MAX, HeaderOps(log + [e]))
    ensures E.AllMovesFit(HEADERS_MAX, HeaderOps(log + [e])) <==>
            E.AllMovesFit(HEADERS_MAX, HeaderOps(log)) && EventFits(bs, e)
  {
    if e.Header? {
      HeaderTracked(log, e.name, e.value);
    } else {
      HeaderOpsSnoc(log, e);
      assert HeaderOps(log) + [] == HeaderOps(log);
    }
  }

  /** And so do many. */
  lemma {:induction false} EventsTracked(bs: seq<E.Binding>, log: seq<Event>, es: seq<Event>)
    requires bs == E.Replay(HEADERS_MAX, HeaderOps(log))
    ensures HeadersAfter(bs, es) == E.Replay(HEADERS_MAX, HeaderOps(log + es))
    ensures E.AllMovesFit(HEADERS_MAX, HeaderOps(log + es)) <==>
            E.AllMovesFit(HEADERS_MAX, HeaderOps(log)) && EventsFit(bs, es)
    decreases |es|
  {
    if es == [] {
      assert log + es == log;
    } else {
      var init, e := es[..|es| - 1], es[|es| - 1];
      EventsTracked(bs, log, init);
      EventTracked(HeadersAfter(bs, init), log + init, e);
      assert log + es == (log + init) + [e];
    }
  }

  /** A legal request: a header of 1200 bytes and then Host twice. */
  function HostTwice(): Request {
    Request("GET", "/", "HTTP/1.1", [("A", seq(1200, _ => 'v')), (HOST, "h"), (HOST, "h")], [])
  }

  /** Not every legal request keeps the moves inside. */
  lemma HostTwiceDoesNotFit()
    ensures LegalRequest(HostTwice())
    ensures var r := Run(INIT, PrintRequest(HostTwice()));
            r.ok && !E.RepeatsFit(HEADERS_MAX, HeaderOps(r.hp.log))
  {
    var first, host := E.Binding("A", seq(1200, _ => 'v')), E.Binding(HOST, "h");
    HostTwiceIsLegal();
    RoundTrip(HostTwice());
    HostTwiceOps();
    E.SetBehind(HEADERS_MAX, first, host, host);
    E.HistoryFitsExactly(HEADERS_MAX, [E.SetOp(first), E.SetOp(host), E.SetOp(host)]);
  }

  lemma HostTwiceIsLegal()
    ensures LegalRequest(HostTwice())
  {
    var hs := HostTwice().headers;
    assert LegalHeader(hs[0]) && LegalHeader(hs[1]) && LegalHeader(hs[2]);
  }

  lemma HostTwiceOps()
    ensures HeaderOps(RequestEvents(HostTwice())) ==
            [E.SetOp(E.Binding("A", seq(1200, _ => 'v'))), E.SetOp(E.Binding(HOST, "h")), E.SetOp(E.Binding(HOST, "h"))]
  {
    var a, h := Event.Header("A", seq(1200, _ => 'v')), Event.Header(HOST, "h");
    var log: seq<Event> := [];
    HeaderOpsSnoc(log, Method("GET", "/"));
    log := log + [Method("GET", "/")];
    HeaderOpsSnoc(log, a);
    HeaderOpsSnoc(log + [a], h);
    HeaderOpsSnoc(log + [a] + [h], h);
    HeaderOpsSnoc(log + [a] + [h] + [h], HeaderDone);
    assert RequestEvents(HostTwice()) == log + [a] + [h] + [h] + [HeaderDone];
  }

  // ---------- The answer

  /** The calls that a whole stream deserves. */
  function AnswerTo(serve: Service, c: Conn, stream: seq<char>): seq<Call> {
    var r := Run(INIT, stream);
    if !r.ok then [Response(500), EndHeaders]
    else if r.hp.state != Data then []
    else AnswerCalls(serve, HandleAll(serve, c, BeforeDone(r.hp.log)), HostIn(r.hp.log))
  }

  /** The Host of the header reports before header-done. */
  function HostIn(log: seq<Event>): Option<seq<char>> {
    E.Current(HEADERS_MAX, HeaderOps(BeforeDone(log)), HOST)
  }

  /** What has been sent is a prefix of `text`, and all of it if no write failed; and none fails if the
      socket takes a byte with every write for as long as there are any. */
  ghost predicate Sent(before: Wire, w: Wire, text: seq<char>) {
    && w.sent <= text && (!w.failed ==> w.sent == text)
    && (Willing(before.replies) && |text| <= |before.replies| ==> !w.failed)
  }

  ghost predicate Fresh(c: Conn) {
    !c.wire.done && !c.wire.failed && c.headers == [] && c.wire.sent == []
  }

  lemma CallsAreSent(w: Wire, calls: seq<Call>)
    requires !w.done && !w.failed && w.sent == []
    ensures Sent(w, PerformAll(w, calls), Intended(calls))
    ensures PerformAll(w, calls).done <==> PerformAll(w, calls).failed || Done in calls
  {
    WirePrefix(w, calls);
    assert [] + Intended(calls) == Intended(calls);
    if Willing(w.replies) && |Intended(calls)| <= |w.replies| {
      EverythingIsSent(w, calls);
    }
  }

  /** Main result: on a new connection everything sent is a prefix of the intended answer, and all of
      it unless a write failed; without an answerable request that is the empty string or the answer
      to a parse failure.  The connection is closed after a failed write or when the answer says so. */
  lemma AnswerIsSent(serve: Service, c: Conn, stream: seq<char>)
    requires Fresh(c)
    ensures var w, calls := OneShot(serve, c, stream).wire, AnswerTo(serve, c, stream);
            Sent(c.wire, w, Intended(calls)) && (w.done <==> w.failed || Done in calls)
  {
    var r := Run(INIT, stream);
    RunKeepsOrder(INIT, stream);
    FailsBeforeBody(INIT, stream);
    if r.hp.state != Data {
      SilentBeforeDone(serve, c, r.hp.log);
      CallsAreSent(c.wire, [Response(500), EndHeaders]);
    } else {
      SplitAtDone(serve, c, r.hp.log);
      var log := BeforeDone(r.hp.log);
      HostIsNeverStale(serve, c, log);
      SilentBeforeDone(serve, c, log);
      CallsAreSent(c.wire, AnswerTo(serve, c, stream));
    }
  }

  /** A status line and the blank line. */
  lemma ShortAnswer(code: int)
    ensures Intended([Response(code), EndHeaders]) == StatusLine(code) + "\r\n"
    ensures Intended([Response(code), EndHeaders, Done]) == StatusLine(code) + "\r\n"
  {
    TextOfOne(EndHeaders);
    TextOfCalls(Response(code), [EndHeaders]);
    assert [Response(code)] + [EndHeaders] == [Response(code), EndHeaders];
    EndIsText();
    TextOfCalls(Response(code), [EndHeaders, Done]);
    assert [Response(code)] + [EndHeaders, Done] == [Response(code), EndHeaders, Done];
  }

  lemma EndIsText()
    ensures Intended([EndHeaders, Done]) == "\r\n"
  {
    TextOfOne(Done);
    TextOfCalls(EndHeaders, [Done]);
    assert [EndHeaders] + [Done] == [EndHeaders, Done];
    assert [CR, LF] + [] == [CR, LF];
  }

  const BAD_REQUEST: seq<char> := "HTTP/1.1 400 Bad Request\r\n\r\n"
  const SERVER_ERROR: seq<char> := "HTTP/1.1 500 Internal Server Error\r\n\r\n"
  const NOT_IMPLEMENTED: seq<char> := "HTTP/1.1 501 Not Implemented\r\n\r\n"

  /** A status line and a blank line, taken apart behind the version. */
  lemma TextOfTail(code: int, tail: seq<char>, all: seq<char>)
    requires tail == StatusAndReason(code) + "\r\n" && all == VERSION + tail
    ensures StatusLine(code) + "\r\n" == all
  {
    Assoc(VERSION, StatusAndReason(code), "\r\n");
  }

  lemma BadRequestTail()
    ensures "400 Bad Request\r\n\r\n" == StatusAndReason(400) + "\r\n"
  {
  }

  lemma BadRequestText()
    ensures StatusLine(400) + "\r\n" == BAD_REQUEST
  {
    BadRequestTail();
    TextOfTail(400, "400 Bad Request\r\n\r\n", BAD_REQUEST);
  }

  lemma ServerErrorTail()
    ensures "500 Internal Server Error\r\n\r\n" == StatusAndReason(500) + "\r\n"
  {
  }

  lemma ServerErrorText()
    ensures StatusLine(500) + "\r\n" == SERVER_ERROR
  {
    ServerErrorTail();
    TextOfTail(500, "500 Internal Server Error\r\n\r\n", SERVER_ERROR);
  }

  lemma NotImplementedTail()
    ensures "501 Not Implemented\r\n\r\n" == StatusAndReason(501) + "\r\n"
  {
  }

  lemma NotImplementedText()
    ensures StatusLine(501) + "\r\n" == NOT_IMPLEMENTED
  {
    NotImplementedTail();
    TextOfTail(501, "501 Not Implemented\r\n\r\n", NOT_IMPLEMENTED);
  }

  lemma Refusals()
    ensures Intended([Response(500), EndHeaders]) == SERVER_ERROR
    ensures Intended([Response(400), EndHeaders, Done]) == BAD_REQUEST
    ensures Intended([Response(404), EndHeaders, Done]) == SERVER_ERROR
    ensures Intended([Response(501), EndHeaders, Done]) == NOT_IMPLEMENTED
  {
    ShortAnswer(400);
    ShortAnswer(404);
    ShortAnswer(500);
    ShortAnswer(501);
    BadRequestText();
    ServerErrorText();
    NotImplementedText();
    UnknownStatus(404);
  }

  /** Main result: before header-done nothing is sent; a request that cannot be parsed gets an Internal
      Server Error; one without a Host that fitted gets a Bad Request; and one for which there is no
      service gets an Internal Server Error too, because 404 is no status that is known.  Only a parse
      failure leaves the connection open. */
  lemma RefusalsOnTheWire(serve: Service, c: Conn, stream: seq<char>)
    requires Fresh(c)
    ensures var r, w := Run(INIT, stream), OneShot(serve, c, stream).wire;
            var before, host := HandleAll(serve, c, BeforeDone(r.hp.log)), HostIn(r.hp.log);
            && (!r.ok ==> Sent(c.wire, w, SERVER_ERROR) && w.done == w.failed)
            && (r.ok && r.hp.state != Data ==> w.sent == [] && !w.done)
            && (r.ok && r.hp.state == Data && host == None ==> Sent(c.wire, w, BAD_REQUEST) && w.done)
            && (r.ok && r.hp.state == Data && host.Some? && serve(before.verb, host.value, before.uri).NoService? ==>
                  Sent(c.wire, w, SERVER_ERROR) && w.done)
  {
    AnswerIsSent(serve, c, stream);
    Refusals();
    if Run(INIT, stream).ok && Run(INIT, stream).hp.state != Data {
      RunKeepsOrder(INIT, stream);
      SilentBeforeDone(serve, c, Run(INIT, stream).hp.log);
    }
  }

  // ---------- From the printed request to the answer

  type Headers = seq<(seq<char>, seq<char>)>

  predicate DistinctNames(hs: Headers) {
    forall i, j :: 0 <= i < j < |hs| ==> hs[i].0 != hs[j].0
  }

  /** What headers take in the environment, each string with its NUL. */
  function HeaderBytes(hs: Headers): nat {
    if hs == [] then 0 else HeaderBytes(hs[..|hs| - 1]) + (|hs[|hs| - 1].0| + 1) + (|hs[|hs| - 1].1| + 1)
  }

  function Bound(hs: Headers): seq<E.Binding> {
    seq(|hs|, i requires 0 <= i < |hs| => E.Binding(hs[i].0, hs[i].1))
  }

  lemma {:induction false} BoundSize(hs: Headers)
    ensures |E.Encode(Bound(hs))| == HeaderBytes(hs)
  {
    if hs != [] {
      var init, last := hs[..|hs| - 1], hs[|hs| - 1];
      BoundSize(init);
      assert Bound(hs) == Bound(init) + [E.Binding(last.0, last.1)];
      E.EncodeSnoc(Bound(init), E.Binding(last.0, last.1));
    }
  }

  /** The last header finds the others in the environment. */
  lemma LastHeader(hs: Headers)
    requires hs != [] && DistinctNames(hs)
    ensures var init, last := hs[..|hs| - 1], hs[|hs| - 1];
            E.Set(Bound(init), HEADERS_MAX, E.Binding(last.0, last.1)) ==
            if HeaderBytes(hs) <= 2040 then Bound(hs) else Bound(init)
  {
    var init, last := hs[..|hs| - 1], hs[|hs| - 1];
    BoundSize(init);
    E.SetAdds(Bound(init), HEADERS_MAX, E.Binding(last.0, last.1));
    assert Bound(hs) == Bound(init) + [E.Binding(last.0, last.1)];
    assert Bound(init) + [] == Bound(init);
  }

  /** Headers with different names that fit are all there, in their order. */
  lemma {:induction false} HeadersAreBound(serve: Service, c: Conn, hs: Headers)
    requires c.headers == [] && DistinctNames(hs) && HeaderBytes(hs) <= 2040
    ensures HandleAll(serve, c, HeaderEvents(hs)) == c.(headers := Bound(hs))
  {
    if hs != [] {
      HeadersAreBound(serve, c, hs[..|hs| - 1]);
      LastHeader(hs);
      assert HeaderEvents(hs)[..|hs| - 1] == HeaderEvents(hs[..|hs| - 1]);
    }
  }

  /** The connection at header-done but for its headers: method and URI are cut to their buffers. */
  function AtDone(c: Conn, r: Request, headers: seq<E.Binding>): Conn {
    c.(verb := r.verb[..Min(|r.verb|, 15)], uri := r.uri[..Min(|r.uri|, 511)], headers := headers)
  }

  lemma {:induction false} BeforeDoneIs(before: seq<Event>, rest: seq<Event>)
    requires HeaderDone !in before
    ensures BeforeDone(before + ([HeaderDone] + rest)) == before
  {
    var log := before + ([HeaderDone] + rest);
    if before == [] {
      assert log[0] == HeaderDone;
    } else {
      assert log[0] == before[0] && log[1..] == before[1..] + ([HeaderDone] + rest);
      BeforeDoneIs(before[1..], rest);
    }
  }

  function EventsBefore(r: Request): seq<Event> {
    [Method(r.verb, r.uri)] + HeaderEvents(r.headers)
  }

  /** What the answer to a printed request depends on. */
  lemma AnswerToRequest(serve: Service, c: Conn, r: Request)
    requires c.headers == [] && LegalRequest(r)
    ensures var before := HandleAll(serve, c, EventsBefore(r));
            AnswerTo(serve, c, PrintRequest(r)) == AnswerCalls(serve, before, E.Lookup(before.headers, HOST))
  {
    RoundTrip(r);
    var body := if r.body == [] then [] else [Body(r.body)];
    assert RequestEvents(r) == EventsBefore(r) + ([HeaderDone] + body);
    BeforeDoneIs(EventsBefore(r), body);
    HostIsNeverStale(serve, c, EventsBefore(r));
  }

  lemma CutTo(s: seq<char>, max: nat)
    requires 0 < max
    ensures Kept(s, max) == s[..Min(|s|, max - 1)]
  {
    assert s[..|s|] == s;
  }

  lemma MethodComesFirst(serve: Service, c: Conn, r: Request)
    ensures HandleAll(serve, c, EventsBefore(r)) == HandleAll(serve, AtDone(c, r, c.headers), HeaderEvents(r.headers))
  {
    var first := [Method(r.verb, r.uri)];
    HandleAppend(serve, c, first, HeaderEvents(r.headers));
    assert first[..0] == [];
    assert HandleAll(serve, c, first) == Handle(serve, c, first[0]);
    CutTo(r.verb, 16);
    CutTo(r.uri, 512);
  }

  /** Main result: a legal request whose headers have different names and fit in 2040 bytes together, a
      Host among them, is answered for the first 15 bytes of its method, that Host and the first 511
      bytes of its URI: by the module with all the headers in their order, or with 501 or 500. */
  lemma RequestIsAnswered(serve: Service, c: Conn, r: Request, host: seq<char>)
    requires Fresh(c) && LegalRequest(r)
    requires DistinctNames(r.headers) && HeaderBytes(r.headers) <= 2040 && ("Host", host) in r.headers
    ensures var w := OneShot(serve, c, PrintRequest(r)).wire;
            match serve(r.verb[..Min(|r.verb|, 15)], host, r.uri[..Min(|r.uri|, 511)])
            case Handler(reply) => Sent(c.wire, w, Intended(reply(Bound(r.headers))))
            case NoHandler => Sent(c.wire, w, "HTTP/1.1 501 Not Implemented\r\n\r\n") && w.done
            case NoService => Sent(c.wire, w, "HTTP/1.1 500 Internal Server Error\r\n\r\n") && w.done
  {
    AnswerToRequest(serve, c, r);
    MethodComesFirst(serve, c, r);
    HeadersAreBound(serve, AtDone(c, r, c.headers), r.headers);
    var i: nat :| i < |r.headers| && r.headers[i] == ("Host", host);
    E.LookupAt(Bound(r.headers), i);
    AnswerIsSent(serve, c, PrintRequest(r));
    Refusals();
  }

  /** A last header that does not fit is not there. */
  lemma LastIsDropped(serve: Service, c: Conn, hs: Headers)
    requires c.headers == [] && hs != [] && DistinctNames(hs)
    requires HeaderBytes(hs[..|hs| - 1]) <= 2040 < HeaderBytes(hs)
    ensures E.Lookup(HandleAll(serve, c, HeaderEvents(hs)).headers, hs[|hs| - 1].0) == None
  {
    var init := hs[..|hs| - 1];
    HeadersAreBound(serve, c, init);
    LastHeader(hs);
    assert HeaderEvents(hs)[..|init|] == HeaderEvents(init);
    E.RemoveAbsent(Bound(init), hs[|hs| - 1].0);
  }

  /** A Host that comes last and does not fit beside the other headers is none. */
  lemma HostMustFit(serve: Service, c: Conn, r: Request)
    requires Fresh(c) && LegalRequest(r) && DistinctNames(r.headers)
    requires r.headers != [] && r.headers[|r.headers| - 1].0 == "Host"
    requires HeaderBytes(r.headers[..|r.headers| - 1]) <= 2040 < HeaderBytes(r.headers)
    ensures var w := OneShot(serve, c, PrintRequest(r)).wire;
            Sent(c.wire, w, "HTTP/1.1 400 Bad Request\r\n\r\n") && w.done
  {
    AnswerToRequest(serve, c, r);
    MethodComesFirst(serve, c, r);
    LastIsDropped(serve, AtDone(c, r, c.headers), r.headers);
    AnswerIsSent(serve, c, PrintRequest(r));
    Refusals();
  }

  /** A request without a header named exactly Host gets a Bad Request. */
  lemma HostIsNeeded(serve: Service, c: Conn, r: Request)
    requires Fresh(c) && LegalRequest(r)
    requires forall i :: 0 <= i < |r.headers| ==> r.headers[i].0 != "Host"
    ensures var w := OneShot(serve, c, PrintRequest(r)).wire;
            Sent(c.wire, w, "HTTP/1.1 400 Bad Request\r\n\r\n") && w.done
  {
    AnswerToRequest(serve, c, r);
    MethodComesFirst(serve, c, r);
    NoHostBound(serve, AtDone(c, r, c.headers), r.headers);
    AnswerIsSent(serve, c, PrintRequest(r));
    Refusals();
  }

  lemma {:induction false} NoHostBound(serve: Service, c: Conn, hs: Headers)
    requires c.headers == [] && forall i :: 0 <= i < |hs| ==> hs[i].0 != "Host"
    ensures E.Lookup(HandleAll(serve, c, HeaderEvents(hs)).headers, "Host") == None
  {
    if hs != [] {
      var init, last := hs[..|hs| - 1], hs[|hs| - 1];
      NoHostBound(serve, c, init);
      assert HeaderEvents(hs)[..|init|] == HeaderEvents(init);
      E.LookupSet(HandleAll(serve, c, HeaderEvents(init)).headers, HEADERS_MAX, E.Binding(last.0, last.1), "Host");
    }
  }

  lemma {:induction false} FailsBeforeBody(hp: Hp, input: seq<char>)
    ensures !Run(hp, input).ok ==> Run(hp, input).hp.state != Data
    decreases |input|
  {
    if input != [] && hp.state != Data && Step(hp, input[0]).ok {
      FailsBeforeBody(Step(hp, input[0]).hp, input[1..]);
    }
  }

  /** The reports before header-done. */
  function BeforeDone(log: seq<Event>): (before: seq<Event>)
    ensures before <= log && HeaderDone !in before
    ensures |before| < |log| ==> log[|before|] == HeaderDone
  {
    if log == [] || log[0] == HeaderDone then [] else [log[0]] + BeforeDone(log[1..])
  }

  lemma OrderedAt(log: seq<Event>, n: nat)
    requires Ordered(log) && n < |log| && log[n] == HeaderDone
    ensures forall i :: 0 <= i < n ==> Phase(log[i]) <= 1
    ensures forall i :: n < i < |log| ==> log[i].Body?
  {
    forall i | 0 <= i < n ensures Phase(log[i]) <= 1 {
      assert Phase(log[i]) <= Phase(log[n]);
    }
    forall i | n < i < |log| ensures log[i].Body? {
      assert Phase(log[n]) <= Phase(log[i]);
    }
  }

  /** Before header-done there are only method and headers, behind it there is only body. */
  lemma AroundDone(log: seq<Event>)
    requires Ordered(log) && HeaderDone in log
    ensures UpTo(BeforeDone(log), 1)
    ensures |BeforeDone(log)| < |log| && log[..|BeforeDone(log)| + 1] == BeforeDone(log) + [HeaderDone]
    ensures forall i :: |BeforeDone(log)| < i < |log| ==> log[i].Body?
  {
    var before := BeforeDone(log);
    assert before != log;
    OrderedAt(log, |before|);
    assert forall i :: 0 <= i < |before| ==> before[i] == log[i];
  }

  lemma SplitAtDone(serve: Service, c: Conn, log: seq<Event>)
    requires Ordered(log) && HeaderDone in log
    ensures UpTo(BeforeDone(log), 1)
    ensures HandleAll(serve, c, log) == HandleAll(serve, c, BeforeDone(log) + [HeaderDone])
  {
    AroundDone(log);
    BodyBehind(serve, c, log, |BeforeDone(log)| + 1);
  }

  lemma BodyBehind(serve: Service, c: Conn, log: seq<Event>, n: nat)
    requires n <= |log| && forall i :: n <= i < |log| ==> log[i].Body?
    ensures HandleAll(serve, c, log) == HandleAll(serve, c, log[..n])
  {
    HandleAppend(serve, c, log[..n], log[n..]);
    assert log == log[..n] + log[n..];
    OnlyBody(serve, HandleAll(serve, c, log[..n]), log[n..]);
  }

  lemma {:induction false} OnlyBody(serve: Service, c: Conn, es: seq<Event>)
    requires forall i :: 0 <= i < |es| ==> es[i].Body?
    ensures HandleAll(serve, c, es) == c
  {
    if es != [] {
      OnlyBody(serve, c, es[..|es| - 1]);
    }
  }

  // ---------- The connection

  class HttpChannel {
    const channel: Channel
    const hp: HttpParser
    const headers: E.Environment
    const serve: Service
    var verb: seq<char>
    var uri: seq<char>

    ghost predicate Valid()
      reads this, channel, channel.buf, hp, hp.tok, headers, headers.heap
    {
      && channel.Valid() && hp.curTok <= hp.tok.Length && hp.tok.Length == TOK_MAX
      && headers.Valid() && headers.max == HEADERS_MAX
      && channel.buf != hp.tok && channel.buf != headers.heap && hp.tok != headers.heap
    }

    /** The environment is what the header reports of `log` make it, and so is how far its moves reached. */
    ghost predicate Tracks(log: seq<Event>)
      reads headers
    {
      && headers.bindings == E.Replay(HEADERS_MAX, HeaderOps(log))
      && (headers.reach <= HEADERS_MAX <==> E.AllMovesFit(HEADERS_MAX, HeaderOps(log)))
    }

    ghost function View(): Conn
      reads this, channel, headers
    {
      Conn(verb, uri, headers.bindings, channel.View())
    }

    /** `httpch_init` */
    constructor (packets: seq<seq<char>>, replies: seq<int>, serve: Service)
      ensures Valid() && hp.Valid() && channel.bufCur == 0 && Tracks(hp.log)
      ensures fresh(channel) && fresh(channel.buf) && fresh(hp) && fresh(hp.tok)
      ensures fresh(headers) && fresh(headers.heap)
      ensures hp.View() == INIT && View() == Conn([], [], [], Wire(false, replies, [], false))
      ensures channel.packets == packets && this.serve == serve
    {
      channel := new Channel(packets, replies);
      hp := new HttpParser();
      headers := new E.Environment(HEADERS_MAX);
      this.serve := serve;
      verb, uri := [], [];
    }

    /** The response functions, called one after the other. */
    method PerformCalls(calls: seq<Call>)
      requires Valid()
      modifies channel`done, channel`replies, channel`sent, channel`failed
      ensures Valid()
      ensures channel.View() == PerformAll(old(channel.View()), calls)
    {
      var i := 0;
      while i < |calls|
        invariant 0 <= i <= |calls|
        invariant Valid()
        invariant PerformAll(old(channel.View()), calls) == PerformAll(channel.View(), calls[i..])
      {
        assert calls[i..][1..] == calls[i + 1..];
        match calls[i] {
          case Response(code) => channel.SendResponse(code);
          case Header(name, value) => channel.SendHeader(name, value);
          case EndHeaders => channel.SendEndHeaders();
          case Raw(bytes) =>
            WriteOne(channel.View(), bytes);
            var ok := channel.Send(bytes);
          case Done => channel.SetDone();
        }
        i := i + 1;
      }
    }

    /** `on_header_done` */
    method OnHeaderDone()
      requires Valid()
      modifies channel`done, channel`replies, channel`sent, channel`failed
      ensures Valid()
      ensures View() == Handle(serve, old(View()), HeaderDone)
    {
      var host := headers.Get(HOST);
      if host.None? {
        PerformCalls([Response(400), EndHeaders, Done]);
        return;
      }
      match serve(verb, host.value, uri) {
        case NoService => PerformCalls([Response(404), EndHeaders, Done]);
        case NoHandler => PerformCalls([Response(501), EndHeaders, Done]);
        case Handler(reply) =>
          var all := E.Collect(headers);
          PerformCalls(reply(all));
      }
    }

    /** One callback. */
    method OnEvent(e: Event)
      requires Valid() && NulFreeEvent(e)
      modifies this`verb, this`uri, headers, headers.heap
      modifies channel`done, channel`replies, channel`sent, channel`failed
      ensures Valid()
      ensures View() == Handle(serve, old(View()), e)
      ensures headers.bindings == AfterEvent(old(headers.bindings), e)
      ensures headers.reach <= HEADERS_MAX <==> old(headers.reach) <= HEADERS_MAX && EventFits(old(headers.bindings), e)
    {
      match e {
        case Method(v, u) =>
          verb := Kept(v, METHOD_MAX);
          uri := Kept(u, URI_MAX);
        case Header(name, value) =>
          ghost var end;
          var ok;
          ok, end := headers.Put(name, value);
        case HeaderDone =>
          OnHeaderDone();
        case Body(_) =>
      }
    }

    /** The callbacks of one call of the parser.  None of them touches the parser. */
    method Dispatch(es: seq<Event>)
      requires Valid() && AllStrings(es)
      modifies this`verb, this`uri, headers, headers.heap
      modifies channel`done, channel`replies, channel`sent, channel`failed
      ensures Valid()
      ensures View() == HandleAll(serve, old(View()), es)
      ensures headers.bindings == HeadersAfter(old(headers.bindings), es)
      ensures headers.reach <= HEADERS_MAX <==>
              old(headers.reach) <= HEADERS_MAX && EventsFit(old(headers.bindings), es)
    {
      var i := 0;
      ghost var c, bs := View(), headers.bindings;
      assert es[..0] == [];
      while i < |es|
        invariant 0 <= i <= |es|
        invariant Valid()
        invariant headers.bindings == HeadersAfter(bs, es[..i])
        invariant headers.reach <= HEADERS_MAX <==> old(headers.reach) <= HEADERS_MAX && EventsFit(bs, es[..i])
        invariant View() == HandleAll(serve, c, es[..i])
      {
        OneMore(serve, c, bs, es, i);
        OnEvent(es[i]);
        i := i + 1;
      }
      assert es[..|es|] == es;
    }

    /** Parse what has been read and make the callbacks. */
    method ParseChunk() returns (ok: bool)
      requires Valid() && hp.Valid() && Tracks(hp.log) && AllStrings(hp.log)
      modifies this`verb, this`uri, headers, headers.heap, hp, hp.tok
      modifies channel`done, channel`replies, channel`sent, channel`failed
      ensures Valid() && hp.Valid() && Tracks(hp.log) && AllStrings(hp.log)
      ensures var r := Run(old(hp.View()), channel.buf[..channel.bufCur]);
              && Result(hp.View(), ok) == r
              && View() == HandleAll(serve, old(View()), NewEvents(old(hp.View()), r.hp))
    {
      var mark := |hp.log|;
      LogGrows(hp.View(), channel.buf[..channel.bufCur]);
      ReportsAreStrings(hp.View(), channel.buf[..channel.bufCur]);
      ok := hp.Parse(channel.buf[..channel.bufCur]);
      EventsTracked(headers.bindings, old(hp.log), hp.log[mark..]);
      assert hp.log == old(hp.log) + hp.log[mark..];
      Dispatch(hp.log[mark..]);
    }

    /** The answer to a parse failure. */
    method Refuse()
      requires Valid()
      modifies channel`done, channel`replies, channel`sent, channel`failed
      ensures Valid()
      ensures View() == Finish(old(View()), false)
    {
      PerformCalls([Response(500), EndHeaders]);
    }

    /** One read: true stands for going on with the loop. */
    method Round() returns (more: bool)
      requires Valid() && hp.Valid() && Tracks(hp.log) && channel.bufCur == 0 && !channel.done
      requires AllStrings(hp.log)
      modifies this`verb, this`uri, headers, headers.heap, hp, hp.tok, channel, channel.buf
      ensures Valid() && hp.Valid() && Tracks(hp.log) && AllStrings(hp.log) && (more ==> channel.bufCur == 0)
      ensures more ==> Backlog(channel.packets) < old(Backlog(channel.packets))
      ensures Process(serve, old(hp.View()), old(View()), old(channel.packets)) ==
              if more then Process(serve, hp.View(), View(), channel.packets) else Outcome(View(), hp.View())
    {
      ghost var got := Received(channel.packets, CHUNK_SIZE);
      OneRound(serve, hp.View(), View(), channel.packets, got);
      more := channel.Fill();
      if !more {
        return;
      }
      assert channel.buf[..channel.bufCur] == got;
      more := ParseChunk();
      if more {
        channel.bufCur := 0;
      } else {
        Refuse();
      }
    }

    /** `httpd_process` */
    method Serve()
      requires Valid() && hp.Valid() && Tracks(hp.log) && channel.bufCur == 0
      requires AllStrings(hp.log)
      modifies this`verb, this`uri, headers, headers.heap, hp, hp.tok, channel, channel.buf
      ensures Valid() && hp.Valid() && Tracks(hp.log)
      ensures Outcome(View(), hp.View()) == Process(serve, old(hp.View()), old(View()), old(channel.packets))
    {
      while !channel.done
        invariant Valid() && hp.Valid() && Tracks(hp.log) && channel.bufCur == 0
        invariant AllStrings(hp.log)
        invariant Process(serve, old(hp.View()), old(View()), old(channel.packets)) ==
                  Process(serve, hp.View(), View(), channel.packets)
        decreases Backlog(channel.packets)
      {
        var more := Round();
        if !more {
          return;
        }
      }
    }
  }

  /** A connection from its beginning, `httpch_init` followed by `httpd_process`: what is left of it
      depends on the stream alone, and the memmoves of its environment have stayed inside the heap exactly
      if the headers in the stream say so. */
  method ServeNew(packets: seq<seq<char>>, replies: seq<int>, serve: Service) returns (hc: HttpChannel)
    ensures hc.View() == OneShot(serve, Conn([], [], [], Wire(false, replies, [], false)), Delivered(packets))
    ensures hc.headers.reach <= HEADERS_MAX <==>
            E.RepeatsFit(HEADERS_MAX, HeaderOps(Run(INIT, Delivered(packets)).hp.log))
  {
    hc := new HttpChannel(packets, replies, serve);
    ghost var c := hc.View();
    hc.Serve();
    ReportsDependOnStream(serve, c, packets);
    HeaderMovesFit(serve, c, packets);
  }

  /** The strings of a header report are C strings. */
  predicate NulFreeEvent(e: Event) {
    e.Header? ==> NulFree(e.name) && NulFree(e.value)
  }

  predicate AllStrings(log: seq<Event>) {
    forall e :: e in log ==> NulFreeEvent(e)
  }

  lemma StringsSnoc(log: seq<Event>, e: Event)
    requires AllStrings(log) && NulFreeEvent(e)
    ensures AllStrings(log + [e])
  {
  }

  lemma StepReportsStrings(hp: Hp, ch: char)
    requires AllStrings(hp.log)
    ensures AllStrings(Step(hp, ch).hp.log)
  {
    var log := Step(hp, ch).hp.log;
    if hp.state == FieldValueFirstChar || hp.state == FieldValue {
      HeaderStepReports(hp, ch);
      if log != hp.log {
        var name, value :| log == hp.log + [Event.Header(CStr(name), CStr(value))];
        StringsSnoc(hp.log, Event.Header(CStr(name), CStr(value)));
      }
    } else {
      OtherStepReports(hp, ch);
      if log != hp.log {
        var e: Event :| !e.Header? && log == hp.log + [e];
        StringsSnoc(hp.log, e);
      }
    }
  }

  lemma {:induction false} ReportsAreStrings(hp: Hp, input: seq<char>)
    requires AllStrings(hp.log)
    ensures AllStrings(Run(hp, input).hp.log)
    decreases |input|
  {
    if input != [] && hp.state != Data {
      StepReportsStrings(hp, input[0]);
      if Step(hp, input[0]).ok {
        ReportsAreStrings(Step(hp, input[0]).hp, input[1..]);
      }
    }
  }
}
