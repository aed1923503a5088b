/** Properties of the HTTP parser over many calls: how the input is cut does not matter, reports
    come in a fixed order, and a printed request is read back. */
module HttpStream {
  import opened Bytes
  import opened HttpParsing
  import opened HttpGrammar

  // ---------- Cutting the input

  /** Calls on successive chunks, stopping at the first that fails. */
  function Feed(hp: Hp, chunks: seq<seq<char>>): Result
    decreases |chunks|
  {
    if chunks == [] then Result(hp, true)
    else
      var r := Run(hp, chunks[0]);
      if r.ok then Feed(r.hp, chunks[1..]) else r
  }

  /** Append a report, merging two pieces of body that follow each other. */
  function Snoc(log: seq<Event>, e: Event): seq<Event> {
    if e.Body? && log != [] && log[|log| - 1].Body? then
      log[..|log| - 1] + [Body(log[|log| - 1].bytes + e.bytes)]
    else log + [e]
  }

  /** The reports with adjacent pieces of body merged. */
  function Coalesce(log: seq<Event>): seq<Event> {
    if log == [] then [] else Snoc(Coalesce(log[..|log| - 1]), log[|log| - 1])
  }

  /** Equal results, up to how the body was cut. */
  ghost predicate Same(r: Result, r': Result) {
    && r.ok == r'.ok
    && r.hp.(log := []) == r'.hp.(log := [])
    && Coalesce(r.hp.log) == Coalesce(r'.hp.log)
  }

  lemma CoalesceSnoc(log: seq<Event>, e: Event)
    ensures Coalesce(log + [e]) == Snoc(Coalesce(log), e)
  {
    assert (log + [e])[..|log|] == log;
  }

  /** One report of a body is as good as two. */
  lemma CoalesceBodies(log: seq<Event>, a: seq<char>, b: seq<char>)
    ensures Coalesce(log + [Body(a)] + [Body(b)]) == Coalesce(log + [Body(a + b)])
  {
    CoalesceSnoc(log, Body(a));
    CoalesceSnoc(log + [Body(a)], Body(b));
    CoalesceSnoc(log, Body(a + b));
    var merged := Coalesce(log);
    if merged != [] && merged[|merged| - 1].Body? {
      Assoc(merged[|merged| - 1].bytes, a, b);
    }
  }

  /** Two calls against one, in the body. */
  lemma BodySplit(hp: Hp, a: seq<char>, b: seq<char>)
    requires hp.state == Data && a != []
    ensures Run(hp, a).ok && Same(Run(Run(hp, a).hp, b), Run(hp, a + b))
  {
    if b == [] {
      assert a + b == a;
    } else {
      CoalesceBodies(hp.log, a, b);
      assert Run(Run(hp, a).hp, b).hp.log == hp.log + [Body(a)] + [Body(b)];
      assert Run(hp, a + b).hp.log == hp.log + [Body(a + b)];
    }
  }

  /** One byte first. */
  lemma RunOne(hp: Hp, ch: char, rest: seq<char>)
    requires hp.state != Data
    ensures var r := Step(hp, ch);
            Run(hp, [ch] + rest) == if r.ok then Run(r.hp, rest) else r
  {
    assert ([ch] + rest)[1..] == rest;
  }

  /** Two calls against one. */
  lemma {:induction false} RunSplit(hp: Hp, a: seq<char>, b: seq<char>)
    ensures !Run(hp, a).ok ==> Run(hp, a + b) == Run(hp, a)
    ensures Run(hp, a).ok ==> Same(Run(Run(hp, a).hp, b), Run(hp, a + b))
    decreases |a|
  {
    if a == [] {
      assert a + b == b;
    } else if hp.state == Data {
      BodySplit(hp, a, b);
    } else {
      var ch, rest := a[0], a[1..];
      assert a == [ch] + rest;
      Assoc([ch], rest, b);
      RunOne(hp, ch, rest);
      RunOne(hp, ch, rest + b);
      if Step(hp, ch).ok {
        RunSplit(Step(hp, ch).hp, rest, b);
      }
    }
  }

  /** Main result: result, state, token and merged reports depend on the bytes alone, not on how
      they are cut into chunks. */
  lemma {:induction false} ChunkIndependence(hp: Hp, chunks: seq<seq<char>>)
    ensures Same(Feed(hp, chunks), Run(hp, Flatten(chunks)))
    decreases |chunks|
  {
    if chunks != [] {
      var r := Run(hp, chunks[0]);
      RunSplit(hp, chunks[0], Flatten(chunks[1..]));
      if r.ok {
        ChunkIndependence(r.hp, chunks[1..]);
      }
    }
  }

  // ---------- The order of reports

  function Phase(e: Event): nat {
    match e
    case Method(_, _) => 0
    case Header(_, _) => 1
    case HeaderDone => 2
    case Body(_) => 3
  }

  /** At most one method, then headers, then at most one header-done, then body. */
  ghost predicate Ordered(log: seq<Event>) {
    forall i, j :: 0 <= i < j < |log| ==>
      Phase(log[i]) <= Phase(log[j]) && (Phase(log[i]) == Phase(log[j]) ==> log[i].Header? || log[i].Body?)
  }

  ghost predicate UpTo(log: seq<Event>, phase: nat) {
    forall i :: 0 <= i < |log| ==> Phase(log[i]) <= phase
  }

  /** What each state says about the reports made so far. */
  ghost predicate InOrder(hp: Hp) {
    && Ordered(hp.log)
    && (hp.state == RequestLineMethod || hp.state == UriFirstChar || hp.state == Uri ==> hp.log == [])
    && (hp.state != Data ==> UpTo(hp.log, 1))
    && (hp.state == Data ==> HeaderDone in hp.log)
  }

  lemma OrderedSnoc(log: seq<Event>, e: Event)
    requires Ordered(log)
    requires e.Body? || (e.HeaderDone? && UpTo(log, 1)) || (e.Header? && UpTo(log, 1)) || log == []
    ensures Ordered(log + [e])
    ensures forall p: nat :: UpTo(log, p) && Phase(e) <= p ==> UpTo(log + [e], p)
  {
  }

  /** The two steps that report a header. */
  lemma HeaderStepReports(hp: Hp, ch: char)
    requires hp.state == FieldValueFirstChar || hp.state == FieldValue
    ensures var log := Step(hp, ch).hp.log;
            log == hp.log || exists name, value :: log == hp.log + [Header(CStr(name), CStr(value))]
  {
    if hp.state == FieldValueFirstChar && ch == CR {
      assert CStr([]) == [];
      assert Step(hp, ch).hp.log == hp.log + [Header(CStr(hp.tok), CStr([]))];
    } else if hp.state == FieldValue && ch == CR && |hp.tok| < TOK_MAX {
      var tok := hp.tok + [NUL];
      assert Step(hp, ch).hp.log == hp.log + [Header(CStr(tok), CStr(From(tok, hp.second)))];
    }
  }

  /** The other steps report something else or nothing. */
  lemma OtherStepReports(hp: Hp, ch: char)
    requires hp.state != FieldValueFirstChar && hp.state != FieldValue
    ensures var log := Step(hp, ch).hp.log;
            log == hp.log || exists e: Event :: !e.Header? && log == hp.log + [e]
  {
    if hp.state == Uri && ch == SP && |hp.tok| < TOK_MAX {
      var tok := hp.tok + [NUL];
      assert Step(hp, ch).hp.log == hp.log + [Method(CStr(tok), CStr(From(tok, hp.second)))];
    } else if hp.state == BlankLine && ch == LF {
      assert Step(hp, ch).hp.log == hp.log + [HeaderDone];
    } else if hp.state == Data {
      assert Step(hp, ch).hp.log == hp.log + [Body([ch])];
    }
  }

  lemma HeaderStepKeepsOrder(hp: Hp, ch: char)
    requires InOrder(hp) && (hp.state == FieldValueFirstChar || hp.state == FieldValue)
    ensures InOrder(Step(hp, ch).hp)
  {
    var log := Step(hp, ch).hp.log;
    HeaderStepReports(hp, ch);
    if log != hp.log {
      var name, value :| log == hp.log + [Header(CStr(name), CStr(value))];
      OrderedSnoc(hp.log, Header(CStr(name), CStr(value)));
    }
  }

  lemma UriStepKeepsOrder(hp: Hp, ch: char)
    requires InOrder(hp) && hp.state == Uri
    ensures InOrder(Step(hp, ch).hp)
  {
    var log := Step(hp, ch).hp.log;
    OtherStepReports(hp, ch);
    if log != hp.log {
      var e: Event :| !e.Header? && log == hp.log + [e];
      assert log[0] == e && e.Method?;
      assert Step(hp, ch).hp.state == HttpVersion;
    }
  }

  lemma DoneStepKeepsOrder(hp: Hp, ch: char)
    requires InOrder(hp) && hp.state == BlankLine
    ensures InOrder(Step(hp, ch).hp)
  {
    if ch == LF {
      OrderedSnoc(hp.log, HeaderDone);
      assert HeaderDone in hp.log + [HeaderDone];
    }
  }

  lemma QuietStepKeepsOrder(hp: Hp, ch: char)
    requires InOrder(hp)
    requires hp.state != Uri && hp.state != BlankLine && hp.state != Data
    requires hp.state != FieldValueFirstChar && hp.state != FieldValue
    ensures InOrder(Step(hp, ch).hp)
  {
    assert Step(hp, ch).hp.log == hp.log && Step(hp, ch).hp.state != Data;
  }

  lemma StepKeepsOrder(hp: Hp, ch: char)
    requires InOrder(hp) && hp.state != Data
    ensures InOrder(Step(hp, ch).hp)
  {
    if hp.state == FieldValueFirstChar || hp.state == FieldValue {
      HeaderStepKeepsOrder(hp, ch);
    } else if hp.state == Uri {
      UriStepKeepsOrder(hp, ch);
    } else if hp.state == BlankLine {
      DoneStepKeepsOrder(hp, ch);
    } else {
      QuietStepKeepsOrder(hp, ch);
    }
  }

  lemma {:induction false} RunKeepsOrder(hp: Hp, input: seq<char>)
    requires InOrder(hp)
    ensures InOrder(Run(hp, input).hp)
    decreases |input|
  {
    if input != [] {
      if hp.state == Data {
        OrderedSnoc(hp.log, Body(input));
        assert HeaderDone in hp.log + [Body(input)];
      } else {
        StepKeepsOrder(hp, input[0]);
        if Step(hp, input[0]).ok {
          RunKeepsOrder(Step(hp, input[0]).hp, input[1..]);
        }
      }
    }
  }

  lemma {:induction false} FeedKeepsOrder(hp: Hp, chunks: seq<seq<char>>)
    requires InOrder(hp) && Wf(hp)
    ensures InOrder(Feed(hp, chunks).hp) && Wf(Feed(hp, chunks).hp)
    decreases |chunks|
  {
    if chunks != [] {
      RunKeepsOrder(hp, chunks[0]);
      RunKeepsWf(hp, chunks[0]);
      if Run(hp, chunks[0]).ok {
        FeedKeepsOrder(Run(hp, chunks[0]).hp, chunks[1..]);
      }
    }
  }

  /** Main result: every run of a new parser, cut anyhow, failing or not, makes its reports in order,
      reports body bytes only after header-done, and leaves a well-formed token. */
  lemma EveryRunIsOrdered(chunks: seq<seq<char>>)
    ensures var r := Feed(INIT, chunks);
            && Ordered(r.hp.log)
            && Wf(r.hp)
            && forall i :: 0 <= i < |r.hp.log| && r.hp.log[i].Body? ==>
                 exists j :: 0 <= j < i && r.hp.log[j] == HeaderDone
  {
    FeedKeepsOrder(INIT, chunks);
    var log := Feed(INIT, chunks).hp.log;
    forall i | 0 <= i < |log| && log[i].Body?
      ensures exists j :: 0 <= j < i && log[j] == HeaderDone
    {
      assert Phase(log[i]) == 3;
      var j :| 0 <= j < |log| && log[j] == HeaderDone;
      assert Phase(log[j]) == 2;
    }
  }

  // ---------- Print and parse

  datatype Request = Request(
    verb: seq<char>, uri: seq<char>, version: seq<char>,
    headers: seq<(seq<char>, seq<char>)>, body: seq<char>)

  predicate LegalHeader(h: (seq<char>, seq<char>)) {
    IsName(h.0) && IsValue(h.1) && NulFree(h.0) && NulFree(h.1) && |h.0| + |h.1| + 2 <= TOK_MAX
  }

  predicate LegalRequest(r: Request) {
    && IsVerb(r.verb) && IsUri(r.uri) && All(r.version, VersionChar)
    && NulFree(r.verb) && NulFree(r.uri) && |r.verb| + |r.uri| + 2 <= TOK_MAX
    && forall i :: 0 <= i < |r.headers| ==> LegalHeader(r.headers[i])
  }

  function PrintHeaders(hs: seq<(seq<char>, seq<char>)>): seq<char> {
    if hs == [] then []
    else (hs[0].0 + [':', SP] + hs[0].1 + [CR, LF]) + PrintHeaders(hs[1..])
  }

  function PrintRequest(r: Request): seq<char> {
    r.verb + [SP] + r.uri + [SP] + r.version + [CR, LF] + PrintHeaders(r.headers) + [CR, LF] + r.body
  }

  function RequestEvents(r: Request): seq<Event> {
    [Method(r.verb, r.uri)]
    + HeaderEvents(r.headers)
    + [HeaderDone]
    + if r.body == [] then [] else [Body(r.body)]
  }

  function Fields(hs: seq<(seq<char>, seq<char>)>): seq<Field> {
    if hs == [] then [] else [Field(hs[0].0, [SP], hs[0].1)] + Fields(hs[1..])
  }

  /** The text and the reports of a list of fields can be read off from either end. */
  lemma {:induction false} FieldsFromTheFront(f: Field, fs: seq<Field>)
    ensures FieldsText([f] + fs) == FieldText(f) + FieldsText(fs)
    ensures FieldsEvents([f] + fs) == FieldEvents(f) + FieldsEvents(fs)
    decreases |fs|
  {
    if fs == [] {
      assert [f] + fs == [] + [f];
      LastField([], f);
    } else {
      var init, last := fs[..|fs| - 1], fs[|fs| - 1];
      FieldsFromTheFront(f, init);
      assert fs == init + [last];
      Assoc([f], init, [last]);
      LastField([f] + init, last);
      LastField(init, last);
      Assoc(FieldText(f), FieldsText(init), FieldText(last));
      Assoc(FieldEvents(f), FieldsEvents(init), FieldEvents(last));
    }
  }

  lemma LastField(fs: seq<Field>, f: Field)
    ensures FieldsText(fs + [f]) == FieldsText(fs) + FieldText(f)
    ensures FieldsEvents(fs + [f]) == FieldsEvents(fs) + FieldEvents(f)
  {
    assert (fs + [f])[..|fs|] == fs;
  }

  function HeaderEvents(hs: seq<(seq<char>, seq<char>)>): seq<Event> {
    seq(|hs|, i requires 0 <= i < |hs| => Header(hs[i].0, hs[i].1))
  }

  lemma {:induction false} PrintedHeaders(hs: seq<(seq<char>, seq<char>)>)
    requires forall i :: 0 <= i < |hs| ==> LegalHeader(hs[i])
    ensures PrintHeaders(hs) == FieldsText(Fields(hs))
    ensures FieldsEvents(Fields(hs)) == HeaderEvents(hs)
    decreases |hs|
  {
    if hs != [] {
      var f := Field(hs[0].0, [SP], hs[0].1);
      FieldsFromTheFront(f, Fields(hs[1..]));
      PrintedHeaders(hs[1..]);
      PrintedHeader(hs[0]);
      HeaderEventsCons(hs);
    }
  }

  lemma HeaderEventsCons(hs: seq<(seq<char>, seq<char>)>)
    requires hs != []
    ensures HeaderEvents(hs) == [Header(hs[0].0, hs[0].1)] + HeaderEvents(hs[1..])
  {
  }

  lemma PrintedFieldsAreValid(hs: seq<(seq<char>, seq<char>)>)
    requires forall i :: 0 <= i < |hs| ==> LegalHeader(hs[i])
    ensures forall f :: f in Fields(hs) ==> ValidField(f)
  {
    if hs != [] {
      PrintedHeader(hs[0]);
      PrintedFieldsAreValid(hs[1..]);
    }
  }

  lemma PrintedHeader(h: (seq<char>, seq<char>))
    requires LegalHeader(h)
    ensures var f := Field(h.0, [SP], h.1);
            && FieldText(f) == h.0 + [':', SP] + h.1 + [CR, LF]
            && FieldEvents(f) == [Header(h.0, h.1)]
            && ValidField(f)
  {
    assert GapEvents(h.0, [SP]) == GapEvents(h.0, [SP][..0]) + [] == [];
    CStrOfNulFree(h.0, []);
    CStrOfNulFree(h.1, []);
    assert h.0 + [] == h.0 && h.1 + [] == h.1;
    assert h.0 + [':'] + [SP] == h.0 + [':', SP];
  }

  lemma PrintedText(r: Request, h: Head)
    requires h.line == Full(r.verb, r.uri, r.version)
    requires FieldsText(h.fields) == PrintHeaders(r.headers)
    ensures PrintRequest(r) == HeadText(h) + r.body
  {
  }

  /** Main result: a printed request is parsed back to exactly its parts. */
  lemma RoundTrip(r: Request)
    requires LegalRequest(r)
    ensures Run(INIT, PrintRequest(r)).ok
    ensures Run(INIT, PrintRequest(r)).hp.state == Data
    ensures Run(INIT, PrintRequest(r)).hp.log == RequestEvents(r)
  {
    var h := Head(Full(r.verb, r.uri, r.version), Fields(r.headers));
    PrintedHeaders(r.headers);
    PrintedFieldsAreValid(r.headers);
    PrintedText(r, h);
    CStrOfNulFree(r.verb, []);
    CStrOfNulFree(r.uri, []);
    assert r.verb + [] == r.verb && r.uri + [] == r.uri;
    HeadIsParsed(h, r.body);
  }
}
