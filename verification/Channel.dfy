/** The connection of channel.c over an arbitrary socket, and the responses of httpd.c. */
module Channels {
  import opened Bytes

  // ---------- Writing

  /** The sending side of a connection.  `replies` are the results of the coming calls of `write`: a
      negative one is an error, another the number of bytes it would take; when they are used up
      every further write fails.  `failed` records that a write failed. */
  datatype Wire = Wire(done: bool, replies: seq<int>, sent: seq<char>, failed: bool)

  function Min(a: int, b: int): int {
    if a < b then a else b
  }

  /** `ch_write`, whose result the callers ignore. */
  function Write(w: Wire, buf: seq<char>): Wire
    decreases |w.replies|
  {
    if buf == [] || w.done then w
    else if w.replies == [] then w.(done := true, failed := true)
    else if w.replies[0] < 0 then Wire(true, w.replies[1..], w.sent, true)
    else
      var n := Min(w.replies[0], |buf|);
      Write(w.(replies := w.replies[1..], sent := w.sent + buf[..n]), buf[n..])
  }

  /** The calls that produce a response. */
  datatype Call =
    | Response(code: int)
    | Header(name: seq<char>, value: seq<char>)
    | EndHeaders
    | Raw(bytes: seq<char>)
    | Done

  const VERSION: seq<char> := "HTTP/1.1 "

  function StatusLine(code: int): seq<char> {
    VERSION + StatusAndReason(code)
  }

  function StatusAndReason(code: int): seq<char> {
    match code
    case 200 => "200 OK\r\n"
    case 400 => "400 Bad Request\r\n"
    case 501 => "501 Not Implemented\r\n"
    case 502 => "502 Bad Gateway\r\n"
    case 503 => "503 Service Unavailable\r\n"
    case 504 => "504 Gateway Timeout\r\n"
    case 505 => "505 HTTP Version Not Supported\r\n"
    case _ => "500 Internal Server Error\r\n"
  }

  /** A status outside the table goes out as an Internal Server Error, 404 among them. */
  lemma UnknownStatus(code: int)
    ensures StatusLine(code) == StatusLine(500) <==> code !in {200, 400, 501, 502, 503, 504, 505}
  {
    var line, error := StatusAndReason(code), StatusAndReason(500);
    assert error[0] == '5' && error[2] == '0';
    assert code in {200, 400, 501, 502, 503, 504, 505} ==> line[0] != '5' || line[2] != '0';
    assert StatusLine(code)[9..] == line && StatusLine(500)[9..] == error;
  }

  /** The three decimal digits of a number below 1000. */
  function Digits(n: nat): seq<char>
    requires n < 1000
  {
    [('0' as int + n / 100) as char, ('0' as int + n / 10 % 10) as char, ('0' as int + n % 10) as char]
  }

  // A status line as section 6.1 of RFC 2616 has it: the version, the digits of the status between two
  // spaces, and a reason up to the only end of line.

  predicate Shows(line: seq<char>, status: nat)
    requires status < 1000
  {
    "HTTP/1.1 " <= line && 13 <= |line| && line[9..12] == Digits(status) && line[12] == ' '
  }

  ghost predicate EndsOnce(line: seq<char>) {
    && 2 <= |line| && line[|line| - 2] == CR && line[|line| - 1] == LF
    && forall i :: 0 <= i < |line| - 2 ==> line[i] != CR && line[i] != LF
  }

  /** What stands behind the version. */
  ghost predicate IsTail(tail: seq<char>, status: nat)
    requires status < 1000
  {
    && 4 <= |tail| && tail[0] == Digits(status)[0] && tail[1] == Digits(status)[1] && tail[2] == Digits(status)[2]
    && tail[3] == ' ' && EndsOnce(tail)
  }

  lemma Tail200()
    ensures IsTail("200 OK\r\n", 200)
  {
  }

  lemma Tail400()
    ensures IsTail("400 Bad Request\r\n", 400)
  {
  }

  lemma Tail501()
    ensures IsTail("501 Not Implemented\r\n", 501)
  {
  }

  lemma Tail502()
    ensures IsTail("502 Bad Gateway\r\n", 502)
  {
  }

  lemma Tail503()
    ensures IsTail("503 Service Unavailable\r\n", 503)
  {
  }

  lemma Tail504()
    ensures IsTail("504 Gateway Timeout\r\n", 504)
  {
  }

  lemma Tail505()
    ensures IsTail("505 HTTP Version Not Supported\r\n", 505)
  {
  }

  lemma Tail500()
    ensures IsTail("500 Internal Server Error\r\n", 500)
  {
  }

  lemma TailOfStatus(code: int)
    ensures var shown: nat := if code in {200, 400, 500, 501, 502, 503, 504, 505} then code else 500;
            IsTail(StatusAndReason(code), shown)
  {
    match code
    case 200 => Tail200();
    case 400 => Tail400();
    case 501 => Tail501();
    case 502 => Tail502();
    case 503 => Tail503();
    case 504 => Tail504();
    case 505 => Tail505();
    case _ => Tail500();
  }

  lemma LineOfTail(tail: seq<char>, status: nat)
    requires status < 1000 && IsTail(tail, status)
    ensures Shows(VERSION + tail, status) && EndsOnce(VERSION + tail)
  {
    var line := VERSION + tail;
    assert line[9] == tail[0] && line[10] == tail[1] && line[11] == tail[2] && line[12] == tail[3];
    forall i | 0 <= i < |line| - 2 ensures line[i] != CR && line[i] != LF {
      if i < 9 {
        assert line[i] == VERSION[i];
      } else {
        assert line[i] == tail[i - 9];
      }
    }
  }

  /** Main result: a status goes out with its own digits if it is one of the eight and with those of 500
      otherwise, in one line. */
  lemma StatusLineShape(code: int)
    ensures var shown: nat := if code in {200, 400, 500, 501, 502, 503, 504, 505} then code else 500;
            Shows(StatusLine(code), shown) && EndsOnce(StatusLine(code))
  {
    TailOfStatus(code);
    LineOfTail(StatusAndReason(code), if code in {200, 400, 500, 501, 502, 503, 504, 505} then code else 500);
  }

  /** The writes that a call makes. */
  function Pieces(call: Call): seq<seq<char>> {
    match call
    case Response(code) => [StatusLine(code)]
    case Header(name, value) => [name, ": ", value, "\r\n"]
    case EndHeaders => ["\r\n"]
    case Raw(bytes) => [bytes]
    case Done => []
  }

  function WriteAll(w: Wire, pieces: seq<seq<char>>): Wire
    decreases |pieces|
  {
    if pieces == [] then w else WriteAll(Write(w, pieces[0]), pieces[1..])
  }

  lemma WriteOne(w: Wire, a: seq<char>)
    ensures WriteAll(w, [a]) == Write(w, a)
  {
    assert [a][1..] == [];
  }

  lemma WriteFour(w: Wire, a: seq<char>, b: seq<char>, c: seq<char>, d: seq<char>)
    ensures WriteAll(w, [a, b, c, d]) == Write(Write(Write(Write(w, a), b), c), d)
  {
    var w1 := Write(w, a);
    var w2 := Write(w1, b);
    assert [a, b, c, d][1..] == [b, c, d] && [b, c, d][1..] == [c, d] && [c, d][1..] == [d];
    assert WriteAll(w, [a, b, c, d]) == WriteAll(w1, [b, c, d]);
    assert WriteAll(w1, [b, c, d]) == WriteAll(w2, [c, d]);
    assert WriteAll(w2, [c, d]) == WriteAll(Write(w2, c), [d]);
    WriteOne(Write(w2, c), d);
  }

  function Perform(w: Wire, call: Call): Wire {
    if call.Done? then w.(done := true) else WriteAll(w, Pieces(call))
  }

  function PerformAll(w: Wire, calls: seq<Call>): Wire
    decreases |calls|
  {
    if calls == [] then w else PerformAll(Perform(w, calls[0]), calls[1..])
  }

  /** The bytes that calls mean to send: none after `ch_done`. */
  function Intended(calls: seq<Call>): seq<char> {
    if calls == [] || calls[0].Done? then []
    else Flatten(Pieces(calls[0])) + Intended(calls[1..])
  }

  /** The text of one call. */
  function TextOf(call: Call): seq<char> {
    match call
    case Response(code) => StatusLine(code)
    case Header(name, value) => name + [':', SP] + value + [CR, LF]
    case EndHeaders => [CR, LF]
    case Raw(bytes) => bytes
    case Done => []
  }

  lemma TextOfPieces(call: Call)
    ensures Flatten(Pieces(call)) == TextOf(call)
  {
    match call
    case Response(code) => FlattenOne(StatusLine(code));
    case Header(name, value) => FlattenFour(name, ": ", value, "\r\n");
    case EndHeaders => FlattenOne("\r\n");
    case Raw(bytes) => FlattenOne(bytes);
    case Done =>
  }

  /** Calls mean to send their texts one after the other, up to `ch_done`. */
  lemma TextOfCalls(call: Call, rest: seq<Call>)
    ensures Intended([call] + rest) == if call.Done? then [] else TextOf(call) + Intended(rest)
  {
    TextOfPieces(call);
    assert ([call] + rest)[1..] == rest;
  }

  lemma TextOfOne(call: Call)
    ensures Intended([call]) == TextOf(call)
  {
    TextOfCalls(call, []);
    assert [call] + [] == [call];
    assert Intended([]) == [];
  }

  lemma FlattenOne(a: seq<char>)
    ensures Flatten([a]) == a
  {
    assert [a][1..] == [];
  }

  lemma FlattenFour(a: seq<char>, b: seq<char>, c: seq<char>, d: seq<char>)
    ensures Flatten([a, b, c, d]) == a + b + c + d
  {
    assert [a, b, c, d][1..] == [b, c, d] && [b, c, d][1..] == [c, d] && [c, d][1..] == [d];
    FlattenOne(d);
    assert Flatten([c, d]) == c + d;
    assert Flatten([b, c, d]) == b + (c + d);
    assert Flatten([a, b, c, d]) == a + (b + (c + d)) == a + b + c + d;
  }

  /** Nothing is sent any more. */
  lemma {:induction false} NothingAfterDone(w: Wire, calls: seq<Call>)
    requires w.done
    ensures PerformAll(w, calls) == w
    decreases |calls|
  {
    if calls != [] {
      NoPieceAfterDone(w, Pieces(calls[0]));
      NothingAfterDone(w, calls[1..]);
    }
  }

  lemma {:induction false} NoPieceAfterDone(w: Wire, pieces: seq<seq<char>>)
    requires w.done
    ensures WriteAll(w, pieces) == w
    decreases |pieces|
  {
    if pieces != [] {
      NoPieceAfterDone(w, pieces[1..]);
    }
  }

  /** `w'` is what becomes of the open connection `w` when `text` is to be sent. */
  ghost predicate Sends(w: Wire, w': Wire, text: seq<char>) {
    && w'.sent <= w.sent + text
    && w.sent <= w'.sent
    && w'.done == w'.failed
    && (!w'.failed ==> w'.sent == w.sent + text)
  }

  lemma {:induction false} WriteSends(w: Wire, buf: seq<char>)
    requires !w.done && !w.failed
    ensures Sends(w, Write(w, buf), buf)
    decreases |w.replies|
  {
    if buf != [] && w.replies != [] && w.replies[0] >= 0 {
      var n := Min(w.replies[0], |buf|);
      WriteSends(w.(replies := w.replies[1..], sent := w.sent + buf[..n]), buf[n..]);
      assert buf == buf[..n] + buf[n..];
      Assoc(w.sent, buf[..n], buf[n..]);
    }
  }

  /** What the socket takes before its first error. */
  function Capacity(replies: seq<int>): nat {
    if replies == [] || replies[0] < 0 then 0 else replies[0] + Capacity(replies[1..])
  }

  /** Main result: one call sends exactly as much of its text as the socket takes before an error, and
      fails, which closes the channel, exactly if that is not all of it. */
  lemma {:induction false} WriteSendsCapacity(w: Wire, buf: seq<char>)
    requires !w.done && !w.failed
    ensures var n := Min(|buf|, Capacity(w.replies));
            && Write(w, buf).sent == w.sent + buf[..n]
            && (Write(w, buf).failed <==> n < |buf|) && Write(w, buf).done == Write(w, buf).failed
    decreases |w.replies|
  {
    if buf == [] || w.replies == [] || w.replies[0] < 0 {
      assert buf[..0] == [] && w.sent + [] == w.sent;
    } else {
      var n := Min(w.replies[0], |buf|);
      WriteSendsCapacity(w.(replies := w.replies[1..], sent := w.sent + buf[..n]), buf[n..]);
      var m := Min(|buf[n..]|, Capacity(w.replies[1..]));
      Assoc(w.sent, buf[..n], buf[n..][..m]);
      assert buf[..n] + buf[n..][..m] == buf[..n + m];
    }
  }

  /** Writes that each take a byte at least. */
  predicate Willing(replies: seq<int>) {
    forall i :: 0 <= i < |replies| ==> 0 < replies[i]
  }

  /** `w'` is open still and has used up one write for every byte at most. */
  ghost predicate GoesWell(w: Wire, w': Wire, used: nat) {
    !w'.done && !w'.failed && Willing(w'.replies) && |w.replies| <= |w'.replies| + used
  }

  lemma {:induction false} WriteGoesWell(w: Wire, buf: seq<char>)
    requires !w.done && !w.failed && Willing(w.replies) && |buf| <= |w.replies|
    ensures GoesWell(w, Write(w, buf), |buf|)
    decreases |w.replies|
  {
    if buf != [] {
      var n := Min(w.replies[0], |buf|);
      WriteGoesWell(w.(replies := w.replies[1..], sent := w.sent + buf[..n]), buf[n..]);
    }
  }

  lemma {:induction false} WriteAllGoesWell(w: Wire, pieces: seq<seq<char>>)
    requires !w.done && !w.failed && Willing(w.replies) && |Flatten(pieces)| <= |w.replies|
    ensures GoesWell(w, WriteAll(w, pieces), |Flatten(pieces)|)
    decreases |pieces|
  {
    if pieces != [] {
      WriteGoesWell(w, pieces[0]);
      WriteAllGoesWell(Write(w, pieces[0]), pieces[1..]);
    }
  }

  /** Main result: a socket that takes a byte with every write, for as many writes as there are bytes,
      gets everything. */
  lemma {:induction false} EverythingIsSent(w: Wire, calls: seq<Call>)
    requires !w.done && !w.failed && Willing(w.replies) && |Intended(calls)| <= |w.replies|
    ensures !PerformAll(w, calls).failed && PerformAll(w, calls).sent == w.sent + Intended(calls)
    decreases |calls|
  {
    if calls == [] {
      assert w.sent + [] == w.sent;
    } else if calls[0].Done? {
      NothingAfterDone(w.(done := true), calls[1..]);
      assert w.sent + [] == w.sent;
    } else {
      var w', text := Perform(w, calls[0]), Flatten(Pieces(calls[0]));
      WriteAllGoesWell(w, Pieces(calls[0]));
      WriteAllSends(w, Pieces(calls[0]));
      EverythingIsSent(w', calls[1..]);
      Assoc(w.sent, text, Intended(calls[1..]));
    }
  }

  lemma SendsThen(w: Wire, w': Wire, w'': Wire, a: seq<char>, b: seq<char>)
    requires Sends(w, w', a)
    requires if w'.done then w'' == w' else Sends(w', w'', b)
    ensures Sends(w, w'', a + b)
  {
    Assoc(w.sent, a, b);
  }

  lemma {:induction false} WriteAllSends(w: Wire, pieces: seq<seq<char>>)
    requires !w.done && !w.failed
    ensures Sends(w, WriteAll(w, pieces), Flatten(pieces))
    decreases |pieces|
  {
    if pieces == [] {
      assert w.sent + [] == w.sent;
    } else {
      var w' := Write(w, pieces[0]);
      WriteSends(w, pieces[0]);
      if w'.done {
        NoPieceAfterDone(w', pieces[1..]);
      } else {
        WriteAllSends(w', pieces[1..]);
      }
      SendsThen(w, w', WriteAll(w', pieces[1..]), pieces[0], Flatten(pieces[1..]));
    }
  }

  /** Main result: whatever the socket does, the bytes sent are a prefix of those intended, and all of
      them if no write failed. */
  lemma {:induction false} WirePrefix(w: Wire, calls: seq<Call>)
    requires !w.done && !w.failed
    ensures var w' := PerformAll(w, calls);
            && w.sent <= w'.sent <= w.sent + Intended(calls)
            && (!w'.failed ==> w'.sent == w.sent + Intended(calls))
            && (w'.done <==> w'.failed || Done in calls)
    decreases |calls|
  {
    if calls == [] {
      assert w.sent + [] == w.sent;
    } else if calls[0].Done? {
      NothingAfterDone(w.(done := true), calls[1..]);
      assert w.sent + [] == w.sent;
    } else {
      var w', text := Perform(w, calls[0]), Flatten(Pieces(calls[0]));
      WriteAllSends(w, Pieces(calls[0]));
      Assoc(w.sent, text, Intended(calls[1..]));
      if w'.done {
        NothingAfterDone(w', calls[1..]);
      } else {
        WirePrefix(w', calls[1..]);
        assert calls == [calls[0]] + calls[1..];
      }
    }
  }

  // ---------- Reading

  const CHUNK_SIZE: nat := 256
  const BUF_MAX: nat := 4096

  /** `buf_check` */
  function BufCheck(bufMax: nat, bufCur: nat, count: nat): (n: nat)
    requires bufCur <= bufMax
    ensures n == Min(count, bufMax - bufCur)
  {
    if bufCur + count < bufMax then count else bufMax - bufCur
  }

  /** One `read` of up to `count` bytes from the packets on their way; no bytes mean that the peer has
      closed or that the read failed. */
  function Received(packets: seq<seq<char>>, count: nat): seq<char> {
    if packets == [] then [] else packets[0][..Min(count, |packets[0]|)]
  }

  function Remaining(packets: seq<seq<char>>, count: nat): seq<seq<char>> {
    if packets == [] then []
    else if |packets[0]| <= count then packets[1..]
    else [packets[0][count..]] + packets[1..]
  }

  /** The stream up to the first read that returns nothing. */
  function Delivered(packets: seq<seq<char>>): seq<char> {
    if packets == [] || packets[0] == [] then [] else packets[0] + Delivered(packets[1..])
  }

  function Backlog(packets: seq<seq<char>>): nat {
    if packets == [] then 0 else |packets[0]| + 1 + Backlog(packets[1..])
  }

  /** A read takes the front of the stream. */
  lemma ReadTakesFront(packets: seq<seq<char>>, count: nat)
    requires 0 < count
    ensures Received(packets, count) == [] ==> Delivered(packets) == []
    ensures Received(packets, count) != [] ==>
              && Delivered(packets) == Received(packets, count) + Delivered(Remaining(packets, count))
              && Backlog(Remaining(packets, count)) < Backlog(packets)
    ensures |Received(packets, count)| <= count
  {
    if packets != [] && packets[0] != [] {
      if |packets[0]| <= count {
        assert packets[0][..|packets[0]|] == packets[0];
      } else {
        var rest := Remaining(packets, count);
        assert rest[0] == packets[0][count..] && rest[1..] == packets[1..];
        assert packets[0] == packets[0][..count] + packets[0][count..];
        Assoc(packets[0][..count], packets[0][count..], Delivered(packets[1..]));
      }
    }
  }

  class Channel {
    var done: bool
    var bufCur: nat
    const buf: array<char>
    /** The socket. */
    var packets: seq<seq<char>>
    var replies: seq<int>
    var sent: seq<char>
    ghost var failed: bool

    ghost predicate Valid()
      reads this
    {
      buf.Length == BUF_MAX && bufCur <= BUF_MAX
    }

    ghost function View(): Wire
      reads this
    {
      Wire(done, replies, sent, failed)
    }

    /** `ch_init` */
    constructor (packets: seq<seq<char>>, replies: seq<int>)
      ensures Valid() && fresh(buf)
      ensures bufCur == 0 && this.packets == packets
      ensures View() == Wire(false, replies, [], false)
    {
      done, bufCur, sent, failed := false, 0, [], false;
      buf := new char[BUF_MAX];
      this.packets, this.replies := packets, replies;
    }

    /** `ch_done` */
    method SetDone()
      modifies this`done
      ensures done
    {
      done := true;
    }

    /** `ch_fill`; true stands for 1 and false for -1. */
    method Fill() returns (more: bool)
      requires Valid() && bufCur < BUF_MAX
      modifies this`packets, this`bufCur, buf
      ensures Valid()
      ensures var count := Min(256, 4096 - old(bufCur));
              var got := Received(old(packets), count);
              && more == (got != [])
              && packets == Remaining(old(packets), count)
              && buf[..bufCur] == old(buf[..bufCur]) + got
    {
      var count := BufCheck(BUF_MAX, bufCur, CHUNK_SIZE);
      var got := Received(packets, count);
      packets := Remaining(packets, count);
      if |got| <= 0 {
        assert buf[..bufCur] + got == buf[..bufCur];
        return false;
      }
      forall i | 0 <= i < |got| {
        buf[bufCur + i] := got[i];
      }
      bufCur := bufCur + |got|;
      return true;
    }

    /** `ch_write`; true stands for 0. */
    method Send(text: seq<char>) returns (ok: bool)
      modifies this`done, this`replies, this`sent, this`failed
      ensures View() == Write(old(View()), text)
      ensures ok <==> !done || text == []
    {
      var i := 0;
      while i < |text|
        invariant 0 <= i <= |text|
        invariant i > 0 ==> !done
        invariant Write(old(View()), text) == Write(View(), text[i..])
        decreases |replies|, done
      {
        if done {
          return false;
        }
        if replies == [] {
          SetDone();
          failed := true;
          return false;
        }
        var res := replies[0];
        replies := replies[1..];
        if res < 0 {
          SetDone();
          failed := true;
          return false;
        }
        var n := Min(res, |text| - i);
        sent := sent + text[i..][..n];
        assert text[i..][n..] == text[i + n..];
        i := i + n;
      }
      return true;
    }

    /** `httpd_response` */
    method SendResponse(code: int)
      modifies this`done, this`replies, this`sent, this`failed
      ensures View() == Perform(old(View()), Response(code))
    {
      WriteOne(View(), StatusLine(code));
      var ok := Send(StatusLine(code));
    }

    /** `httpd_header` */
    method SendHeader(name: seq<char>, value: seq<char>)
      modifies this`done, this`replies, this`sent, this`failed
      ensures View() == Perform(old(View()), Header(name, value))
    {
      WriteFour(View(), name, ": ", value, "\r\n");
      var ok := Send(name);
      ok := Send(": ");
      ok := Send(value);
      ok := Send("\r\n");
    }

    /** `httpd_end_headers` */
    method SendEndHeaders()
      modifies this`done, this`replies, this`sent, this`failed
      ensures View() == Perform(old(View()), EndHeaders)
    {
      WriteOne(View(), "\r\n");
      var ok := Send("\r\n");
    }
  }
}
