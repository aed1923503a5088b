/** The resumable request-line parser of victory.c, methodline_parse. */
module RequestLine {
  import opened Bytes
  import opened Buffers
  import opened LineStreams

  datatype State = InMethod | InUri | InVersion | AfterCr

  /** The sizes of the three buffers. */
  datatype Sizes = Sizes(verb: nat, uri: nat, version: nat)

  datatype Ms = Ms(state: State, done: bool, verb: seq<char>, uri: seq<char>, version: seq<char>)

  const INIT: Ms := Ms(InMethod, false, [], [], [])

  /** One byte. */
  function Step(z: Sizes, ms: Ms, ch: char): Verdict<Ms> {
    match ms.state
    case InMethod =>
      Go(if ch == SP then ms.(state := InUri) else ms.(verb := AddCh(ms.verb, z.verb, ch)))
    case InUri =>
      Go(if ch == SP then ms.(state := InVersion) else ms.(uri := AddCh(ms.uri, z.uri, ch)))
    case InVersion =>
      if ch == CR then Go(ms.(state := AfterCr))
      else if IsSpace(ch) then Fail(ms)
      else Go(ms.(version := AddCh(ms.version, z.version, ch)))
    case AfterCr =>
      if ch == LF then Complete(ms.(done := true)) else Fail(ms)
  }

  /** The parser with buffers of given sizes. */
  function Stepper(z: Sizes): (Ms, char) -> Verdict<Ms> {
    (ms, ch) => Step(z, ms, ch)
  }

  // ---------- The language

  predicate PartChar(c: char) {
    c != SP
  }

  predicate VersionChar(c: char) {
    !IsSpace(c)
  }

  /** The method and the URI may hold any byte but a space, CR and LF included. */
  predicate IsLine(verb: seq<char>, uri: seq<char>, version: seq<char>) {
    All(verb, PartChar) && All(uri, PartChar) && All(version, VersionChar)
  }

  function LineText(verb: seq<char>, uri: seq<char>, version: seq<char>): seq<char> {
    verb + ([SP] + (uri + ([SP] + (version + [CR, LF]))))
  }

  /** What a completed line leaves in the buffers: the first bytes of each part. */
  function Parsed(z: Sizes, verb: seq<char>, uri: seq<char>, version: seq<char>): Ms {
    Ms(AfterCr, true, Kept(verb, z.verb), Kept(uri, z.uri), Kept(version, z.version))
  }

  predicate Room(z: Sizes) {
    0 < z.verb && 0 < z.uri && 0 < z.version
  }

  lemma {:induction false} VerbRun(z: Sizes, before: seq<char>, verb: seq<char>, rest: seq<char>)
    requires Room(z) && All(verb, PartChar)
    ensures Run(Stepper(z), Ms(InMethod, false, Kept(before, z.verb), [], []), verb + rest) ==
            Run(Stepper(z), Ms(InMethod, false, Kept(before + verb, z.verb), [], []), rest)
    decreases |verb|
  {
    if verb == [] {
      assert verb + rest == rest && before + verb == before;
    } else {
      KeptSnoc(before, z.verb, verb[0]);
      assert PartChar(verb[0]);
      assert (verb + rest)[1..] == verb[1..] + rest;
      assert (before + [verb[0]]) + verb[1..] == before + verb;
      VerbRun(z, before + [verb[0]], verb[1..], rest);
    }
  }

  lemma {:induction false} UriRun(z: Sizes, verb: seq<char>, before: seq<char>, uri: seq<char>, rest: seq<char>)
    requires Room(z) && All(uri, PartChar)
    ensures Run(Stepper(z), Ms(InUri, false, verb, Kept(before, z.uri), []), uri + rest) ==
            Run(Stepper(z), Ms(InUri, false, verb, Kept(before + uri, z.uri), []), rest)
    decreases |uri|
  {
    if uri == [] {
      assert uri + rest == rest && before + uri == before;
    } else {
      KeptSnoc(before, z.uri, uri[0]);
      assert PartChar(uri[0]);
      assert (uri + rest)[1..] == uri[1..] + rest;
      assert (before + [uri[0]]) + uri[1..] == before + uri;
      UriRun(z, verb, before + [uri[0]], uri[1..], rest);
    }
  }

  lemma {:induction false} VersionRun(z: Sizes, verb: seq<char>, uri: seq<char>, before: seq<char>,
                                      version: seq<char>, rest: seq<char>)
    requires Room(z) && All(version, VersionChar)
    ensures Run(Stepper(z), Ms(InVersion, false, verb, uri, Kept(before, z.version)), version + rest) ==
            Run(Stepper(z), Ms(InVersion, false, verb, uri, Kept(before + version, z.version)), rest)
    decreases |version|
  {
    if version == [] {
      assert version + rest == rest && before + version == before;
    } else {
      KeptSnoc(before, z.version, version[0]);
      assert VersionChar(version[0]);
      assert (version + rest)[1..] == version[1..] + rest;
      assert (before + [version[0]]) + version[1..] == before + version;
      VersionRun(z, verb, uri, before + [version[0]], version[1..], rest);
    }
  }

  /** Reading one separator. */
  lemma RunOne(z: Sizes, ms: Ms, ch: char, rest: seq<char>)
    requires Step(z, ms, ch).Go?
    ensures Run(Stepper(z), ms, [ch] + rest) == Run(Stepper(z), Step(z, ms, ch).s, rest)
  {
    assert ([ch] + rest)[1..] == rest;
  }

  lemma EndIsParsed(z: Sizes, ms: Ms, rest: seq<char>)
    requires ms.state == InVersion && !ms.done
    ensures Run(Stepper(z), ms, [CR] + ([LF] + rest)) == Result(ms.(state := AfterCr, done := true), rest, Completed)
  {
    RunOne(z, ms, CR, [LF] + rest);
    assert ([LF] + rest)[1..] == rest;
  }

  lemma VersionIsParsed(z: Sizes, verb: seq<char>, uri: seq<char>, version: seq<char>, rest: seq<char>)
    requires Room(z) && All(version, VersionChar)
    ensures Run(Stepper(z), Ms(InVersion, false, verb, uri, []), version + ([CR] + ([LF] + rest))) ==
            Result(Ms(AfterCr, true, verb, uri, Kept(version, z.version)), rest, Completed)
  {
    assert [] + version == version;
    VersionRun(z, verb, uri, [], version, [CR] + ([LF] + rest));
    EndIsParsed(z, Ms(InVersion, false, verb, uri, Kept(version, z.version)), rest);
  }

  lemma UriIsParsed(z: Sizes, verb: seq<char>, uri: seq<char>, version: seq<char>, rest: seq<char>)
    requires Room(z) && All(uri, PartChar) && All(version, VersionChar)
    ensures Run(Stepper(z), Ms(InUri, false, verb, [], []), uri + ([SP] + (version + ([CR] + ([LF] + rest))))) ==
            Result(Ms(AfterCr, true, verb, Kept(uri, z.uri), Kept(version, z.version)), rest, Completed)
  {
    var tail := version + ([CR] + ([LF] + rest));
    assert [] + uri == uri;
    UriRun(z, verb, [], uri, [SP] + tail);
    RunOne(z, Ms(InUri, false, verb, Kept(uri, z.uri), []), SP, tail);
    VersionIsParsed(z, verb, Kept(uri, z.uri), version, rest);
  }

  /** A line is read, and exactly what follows its LF is left. */
  lemma LineIsParsed(z: Sizes, verb: seq<char>, uri: seq<char>, version: seq<char>, rest: seq<char>)
    requires Room(z) && IsLine(verb, uri, version)
    ensures Run(Stepper(z), INIT, LineText(verb, uri, version) + rest) ==
            Result(Parsed(z, verb, uri, version), rest, Completed)
  {
    var tail := uri + ([SP] + (version + ([CR] + ([LF] + rest))));
    LineTextThen(verb, uri, version, rest);
    assert [CR, LF] + rest == [CR] + ([LF] + rest);
    assert [] + verb == verb;
    VerbRun(z, [], verb, [SP] + tail);
    RunOne(z, Ms(InMethod, false, Kept(verb, z.verb), [], []), SP, tail);
    UriIsParsed(z, Kept(verb, z.verb), uri, version, rest);
  }

  /** The bytes of a class at the front of `s`. */
  function Span(s: seq<char>, f: char -> bool): (n: nat)
    ensures n <= |s| && All(s[..n], f)
    ensures n < |s| ==> !f(s[n])
  {
    if s == [] || !f(s[0]) then 0
    else
      var n := Span(s[1..], f);
      assert forall i :: 0 < i < n + 1 ==> s[i] == s[1..][i - 1];
      n + 1
  }

  /** Main result: the parser completes exactly on the inputs that start with such a line. */
  lemma CompletesExactly(z: Sizes, input: seq<char>)
    requires Room(z)
    ensures Run(Stepper(z), INIT, input).outcome == Completed
            <==> exists verb, uri, version, rest ::
                   IsLine(verb, uri, version) && input == LineText(verb, uri, version) + rest
  {
    if Run(Stepper(z), INIT, input).outcome == Completed {
      var verb, uri, version, rest := CompletedLine(z, input);
    }
    if verb, uri, version, rest :| IsLine(verb, uri, version) && input == LineText(verb, uri, version) + rest {
      LineIsParsed(z, verb, uri, version, rest);
    }
  }

  lemma LineTextThen(verb: seq<char>, uri: seq<char>, version: seq<char>, rest: seq<char>)
    ensures LineText(verb, uri, version) + rest ==
            verb + ([SP] + (uri + ([SP] + (version + ([CR, LF] + rest)))))
  {
  }

  lemma CompletedLine(z: Sizes, input: seq<char>)
    returns (verb: seq<char>, uri: seq<char>, version: seq<char>, rest: seq<char>)
    requires Room(z) && Run(Stepper(z), INIT, input).outcome == Completed
    ensures IsLine(verb, uri, version) && input == LineText(verb, uri, version) + rest
  {
    verb := input[..Span(input, PartChar)];
    var s := input[|verb|..];
    assert input == verb + s && [] + verb == verb;
    VerbRun(z, [], verb, s);
    assert s != [] && s[0] == SP;
    var t := s[1..];
    assert s == [SP] + t;
    RunOne(z, Ms(InMethod, false, Kept(verb, z.verb), [], []), SP, t);
    uri, version, rest := CompletedUri(z, Kept(verb, z.verb), t);
    LineTextThen(verb, uri, version, rest);
  }

  lemma CompletedUri(z: Sizes, verb: seq<char>, t: seq<char>)
    returns (uri: seq<char>, version: seq<char>, rest: seq<char>)
    requires Run(Stepper(z), Ms(InUri, false, verb, [], []), t).outcome == Completed
    requires Room(z)
    ensures All(uri, PartChar) && All(version, VersionChar)
    ensures t == uri + ([SP] + (version + ([CR, LF] + rest)))
  {
    uri := t[..Span(t, PartChar)];
    var u := t[|uri|..];
    assert t == uri + u && [] + uri == uri;
    UriRun(z, verb, [], uri, u);
    assert u != [] && u[0] == SP;
    var v := u[1..];
    assert u == [SP] + v;
    RunOne(z, Ms(InUri, false, verb, Kept(uri, z.uri), []), SP, v);
    version, rest := CompletedVersion(z, verb, Kept(uri, z.uri), v);
  }

  lemma CompletedVersion(z: Sizes, verb: seq<char>, uri: seq<char>, v: seq<char>)
    returns (version: seq<char>, rest: seq<char>)
    requires Run(Stepper(z), Ms(InVersion, false, verb, uri, []), v).outcome == Completed
    requires Room(z)
    ensures All(version, VersionChar) && v == version + ([CR, LF] + rest)
  {
    version := v[..Span(v, VersionChar)];
    var w := v[|version|..];
    assert v == version + w && [] + version == version;
    VersionRun(z, verb, uri, [], version, w);
    rest := CompletedEnd(z, Ms(InVersion, false, verb, uri, Kept(version, z.version)), w);
  }

  lemma CompletedEnd(z: Sizes, ms: Ms, w: seq<char>) returns (rest: seq<char>)
    requires ms.state == InVersion && !ms.done
    requires Run(Stepper(z), ms, w).outcome == Completed
    requires w != [] ==> !VersionChar(w[0])
    ensures w == [CR, LF] + rest
  {
    assert w[0] == CR;
    var x := w[1..];
    assert w == [CR] + x;
    RunOne(z, ms, CR, x);
    assert x[0] == LF;
    rest := x[1..];
  }

  // ---------- The parser

  class LineParser {
    var state: State
    var done: bool
    const verb: Buffer
    const uri: Buffer
    const version: Buffer

    ghost predicate Valid()
      reads this, verb, verb.data, uri, uri.data, version, version.data
    {
      && verb.Terminated() && uri.Terminated() && version.Terminated()
      && verb != uri && verb != version && uri != version
      && verb.data != uri.data && verb.data != version.data && uri.data != version.data
    }

    ghost function View(): Ms
      requires verb.Valid() && uri.Valid() && version.Valid()
      reads this, verb, verb.data, uri, uri.data, version, version.data
    {
      Ms(state, done, verb.Contents(), uri.Contents(), version.Contents())
    }

    ghost function Limits(): Sizes {
      Sizes(verb.max, uri.max, version.max)
    }

    /** `ms_init` with three fresh buffers */
    constructor (verbMax: nat, uriMax: nat, versionMax: nat)
      requires 0 < verbMax && 0 < uriMax && 0 < versionMax
      ensures Valid() && View() == INIT && Limits() == Sizes(verbMax, uriMax, versionMax)
      ensures fresh(verb) && fresh(verb.data) && fresh(uri) && fresh(uri.data)
      ensures fresh(version) && fresh(version.data)
    {
      state, done := InMethod, false;
      verb := new Buffer(verbMax);
      uri := new Buffer(uriMax);
      version := new Buffer(versionMax);
    }

    /** The switch: more input is wanted, the line is complete, or it is refused. */
    method TakeByte(ch: char) returns (complete: bool, ok: bool)
      requires Valid()
      modifies this, verb, verb.data, uri, uri.data, version, version.data
      ensures Valid()
      ensures Step(Limits(), old(View()), ch) ==
              if !ok then Fail(View()) else if complete then Complete(View()) else Go(View())
    {
      complete, ok := false, true;
      var added;
      match state {
        case InMethod =>
          if ch == SP { state := InUri; } else { added := verb.Add(ch); }
        case InUri =>
          if ch == SP { state := InVersion; } else { added := uri.Add(ch); }
        case InVersion =>
          if ch == CR {
            state := AfterCr;
          } else if IsSpace(ch) {
            ok := false;
          } else {
            added := version.Add(ch);
          }
        case AfterCr =>
          if ch == LF {
            done, complete := true, true;
          } else {
            ok := false;
          }
      }
    }

    /** The body of the loop: byte `i` of the input. */
    method Round(ch: char, ghost input: seq<char>, ghost i: nat) returns (complete: bool, ok: bool)
      requires Valid() && i < |input| && input[i] == ch
      modifies this, verb, verb.data, uri, uri.data, version, version.data
      ensures Valid()
      ensures done == (old(done) || (ok && complete))
      ensures Run(Stepper(Limits()), old(View()), input[i..]) ==
              if ok && !complete then Run(Stepper(Limits()), View(), input[i + 1..])
              else Result(View(), input[i + 1..], if ok then Completed else Failed)
    {
      RunAt(Stepper(Limits()), View(), input, i);
      complete, ok := TakeByte(ch);
    }

    /** `methodline_parse` on the bytes in `bu`; true stands for 0. */
    method Parse(bu: Buffer) returns (ok: bool)
      requires Valid() && bu.Valid()
      requires bu != verb && bu != uri && bu != version
      requires bu.data != verb.data && bu.data != uri.data && bu.data != version.data
      modifies this, verb, verb.data, uri, uri.data, version, version.data, bu, bu.data
      ensures Valid() && bu.Valid()
      ensures var r := Run(Stepper(Limits()), old(View()), old(bu.Contents()));
              && View() == r.s && bu.Contents() == r.rest
              && ok == (r.outcome != Failed)
              && (!old(done) ==> done == (r.outcome == Completed))
    {
      var i := 0;
      ghost var input := bu.Contents();
      ok := true;
      while i < bu.cur
        invariant 0 <= i <= bu.cur && Valid() && bu.Valid() && bu.Contents() == input
        invariant ok && done == old(done)
        invariant Run(Stepper(Limits()), old(View()), input) == Run(Stepper(Limits()), View(), input[i..])
      {
        var complete;
        complete, ok := Round(bu.data[i], input, i);
        i := i + 1;
        if !ok || complete {
          bu.Consume(i);
          return;
        }
      }
      bu.Consume(i);
    }
  }
}
