/** The text of an answer: what the response functions of httpd.c send, as a client reads it. */
module HttpAnswers {
  import opened Bytes
  import opened Channels
  import opened HttpParsing
  import opened HttpGrammar
  import opened HttpStream

  /** Main result: a header line that httpd_header sends is read back by the parser, behind any head, as
      the header with that name and that value. */
  lemma HeaderIsReadBack(h: Head, name: seq<char>, value: seq<char>)
    requires ValidHead(h) && LegalHeader((name, value))
    ensures var line := Intended([Call.Header(name, value)]);
            var r := Run(INIT, TopText(h) + line);
            r.ok && r.hp.log == TopEvents(h) + [Event.Header(name, value)]
  {
    var f := Field(name, [SP], value);
    var longer := Head(h.line, h.fields + [f]);
    PrintedHeader((name, value));
    AnotherField(h, f);
    TextOfOne(Call.Header(name, value));
    DescribedIsReached(AtName(longer));
  }

  /** The calls of an answer with headers and a body. */
  function HeaderCalls(hs: seq<(seq<char>, seq<char>)>): seq<Call> {
    if hs == [] then [] else [Call.Header(hs[0].0, hs[0].1)] + HeaderCalls(hs[1..])
  }

  lemma {:induction false} HeaderCallsText(hs: seq<(seq<char>, seq<char>)>, rest: seq<Call>)
    ensures Intended(HeaderCalls(hs) + rest) == PrintHeaders(hs) + Intended(rest)
  {
    if hs == [] {
      assert HeaderCalls(hs) + rest == rest;
    } else {
      var first, more := Call.Header(hs[0].0, hs[0].1), HeaderCalls(hs[1..]);
      HeaderCallsText(hs[1..], rest);
      Assoc([first], more, rest);
      TextOfCalls(first, more + rest);
      Assoc(hs[0].0 + [':', SP] + hs[0].1 + [CR, LF], PrintHeaders(hs[1..]), Intended(rest));
    }
  }

  /** Main result: what an answer sends is its status line, its headers as they are printed, a blank line
      and its body. */
  lemma AnswerText(code: int, hs: seq<(seq<char>, seq<char>)>, body: seq<char>)
    ensures Intended([Response(code)] + (HeaderCalls(hs) + ([EndHeaders] + ([Raw(body)] + [Done])))) ==
            StatusLine(code) + (PrintHeaders(hs) + ([CR, LF] + body))
  {
    var last := [Raw(body)] + [Done];
    var tail := [EndHeaders] + last;
    TextOfOne(Done);
    TextOfCalls(Raw(body), [Done]);
    assert body + [] == body;
    TextOfCalls(EndHeaders, last);
    HeaderCallsText(hs, tail);
    TextOfCalls(Response(code), HeaderCalls(hs) + tail);
  }
}
