/** The language that the parser accepts, and what it reports, stated without reference to it.

    A request head is a tree.  `Progress` is a tree with an unfinished last part, one constructor
    for each state of the parser.  The main results say that the parser accepts a byte string
    exactly when some valid progress prints as that string, and then stands in exactly the state,
    and has made exactly the reports, that the progress prescribes. */
module HttpGrammar {
  import opened Bytes
  import opened HttpParsing

  /** A request line.  `Short` has no version: its CR follows the URI directly. */
  datatype Line =
    | Full(verb: seq<char>, uri: seq<char>, version: seq<char>)
    | Short(verb: seq<char>, uri: seq<char>)

  /** A header field.  `gap` is what separates the colon from the value; it may hold CRs. */
  datatype Field = Field(name: seq<char>, gap: seq<char>, value: seq<char>)

  datatype Head = Head(line: Line, fields: seq<Field>)

  // ---------- Well-formedness: character classes and the bound on each pair of strings

  predicate UriChar(c: char) {
    c != SP && c != CR && c != LF
  }

  predicate VersionChar(c: char) {
    c != CR
  }

  predicate NameChar(c: char) {
    c != ':' && c != CR && c != LF
  }

  predicate GapChar(c: char) {
    c != LF && IsSpace(c)
  }

  predicate ValueChar(c: char) {
    c != CR && c != LF
  }

  predicate IsVerb(s: seq<char>) {
    All(s, UriChar)
  }

  predicate IsUri(s: seq<char>) {
    s != [] && All(s, UriChar)
  }

  predicate ValidLine(line: Line) {
    && IsVerb(line.verb) && IsUri(line.uri)
    && match line
       case Full(verb, uri, version) => All(version, VersionChar) && |verb| + |uri| + 2 <= TOK_MAX
       case Short(verb, uri) => |verb| + |uri| + 1 <= TOK_MAX
  }

  predicate IsName(s: seq<char>) {
    s != [] && All(s, NameChar)
  }

  predicate IsGap(s: seq<char>) {
    All(s, GapChar)
  }

  predicate IsValue(s: seq<char>) {
    s != [] && !IsSpace(s[0]) && All(s, ValueChar)
  }

  predicate ValidField(f: Field) {
    IsName(f.name) && IsGap(f.gap) && IsValue(f.value) && |f.name| + |f.value| + 2 <= TOK_MAX
  }

  predicate ValidHead(h: Head) {
    ValidLine(h.line) && forall i :: 0 <= i < |h.fields| ==> ValidField(h.fields[i])
  }

  // ---------- Text

  function LineText(line: Line): seq<char> {
    match line
    case Full(verb, uri, version) => verb + [SP] + uri + [SP] + version
    case Short(verb, uri) => verb + [SP] + uri
  }

  function FieldText(f: Field): seq<char> {
    f.name + [':'] + f.gap + f.value + [CR, LF]
  }

  function FieldsText(fs: seq<Field>): seq<char> {
    if fs == [] then [] else FieldsText(fs[..|fs| - 1]) + FieldText(fs[|fs| - 1])
  }

  function TopText(h: Head): seq<char> {
    LineText(h.line) + [CR, LF] + FieldsText(h.fields)
  }

  function HeadText(h: Head): seq<char> {
    TopText(h) + [CR, LF]
  }

  // ---------- Reports

  function LineEvents(line: Line): seq<Event> {
    match line
    case Full(verb, uri, _) => [Method(CStr(verb), CStr(uri))]
    case Short(_, _) => []
  }

  /** Every CR between the colon and the value reports the name with an empty value. */
  function GapEvents(name: seq<char>, gap: seq<char>): seq<Event> {
    if gap == [] then []
    else
      GapEvents(name, gap[..|gap| - 1]) + if gap[|gap| - 1] == CR then [Header(CStr(name), [])] else []
  }

  function FieldEvents(f: Field): seq<Event> {
    GapEvents(f.name, f.gap) + [Header(CStr(f.name), CStr(f.value))]
  }

  function FieldsEvents(fs: seq<Field>): seq<Event> {
    if fs == [] then [] else FieldsEvents(fs[..|fs| - 1]) + FieldEvents(fs[|fs| - 1])
  }

  function TopEvents(h: Head): seq<Event> {
    LineEvents(h.line) + FieldsEvents(h.fields)
  }

  function HeadEvents(h: Head): seq<Event> {
    TopEvents(h) + [HeaderDone]
  }

  // ---------- Unfinished heads, one constructor for each state

  datatype Progress =
    | InVerb(verb: seq<char>)
    | AtUri(verb: seq<char>)
    | InUri(verb: seq<char>, uri: seq<char>)
    | InVersion(verb: seq<char>, uri: seq<char>, version: seq<char>)
    | AtLineEnd(line: Line)
    | AtName(head: Head)
    | InName(head: Head, name: seq<char>)
    | InGap(head: Head, name: seq<char>, gap: seq<char>)
    | InValue(head: Head, name: seq<char>, gap: seq<char>, value: seq<char>)
    | AtEol(head: Head, field: Field)
    | AtBlank(head: Head)
    | AtData(head: Head)

  predicate Valid(p: Progress) {
    match p
    case InVerb(verb) => IsVerb(verb) && |verb| <= TOK_MAX
    case AtUri(verb) => IsVerb(verb) && |verb| + 1 <= TOK_MAX
    case InUri(verb, uri) => IsVerb(verb) && IsUri(uri) && |verb| + |uri| + 1 <= TOK_MAX
    case InVersion(verb, uri, version) => ValidLine(Full(verb, uri, version))
    case AtLineEnd(line) => ValidLine(line)
    case AtName(h) => ValidHead(h)
    case InName(h, name) => ValidHead(h) && IsName(name) && |name| <= TOK_MAX
    case InGap(h, name, gap) => ValidHead(h) && IsName(name) && |name| + 1 <= TOK_MAX && IsGap(gap)
    case InValue(h, name, gap, value) =>
      ValidHead(h) && IsName(name) && IsGap(gap) && IsValue(value) && |name| + |value| + 1 <= TOK_MAX
    case AtEol(h, f) => ValidHead(h) && ValidField(f)
    case AtBlank(h) => ValidHead(h)
    case AtData(h) => ValidHead(h)
  }

  /** What has been read. */
  function Text(p: Progress): seq<char> {
    match p
    case InVerb(verb) => verb
    case AtUri(verb) => verb + [SP]
    case InUri(verb, uri) => verb + [SP] + uri
    case InVersion(verb, uri, version) => LineText(Full(verb, uri, version))
    case AtLineEnd(line) => LineText(line) + [CR]
    case AtName(h) => TopText(h)
    case InName(h, name) => TopText(h) + name
    case InGap(h, name, gap) => TopText(h) + (name + [':'] + gap)
    case InValue(h, name, gap, value) => TopText(h) + (name + [':'] + gap + value)
    case AtEol(h, f) => TopText(h) + (f.name + [':'] + f.gap + f.value + [CR])
    case AtBlank(h) => TopText(h) + [CR]
    case AtData(h) => HeadText(h)
  }

  /** What has been reported. */
  function Events(p: Progress): seq<Event> {
    match p
    case InVerb(_) => []
    case AtUri(_) => []
    case InUri(_, _) => []
    case InVersion(verb, uri, version) => LineEvents(Full(verb, uri, version))
    case AtLineEnd(line) => LineEvents(line)
    case AtName(h) => TopEvents(h)
    case InName(h, _) => TopEvents(h)
    case InGap(h, name, gap) => TopEvents(h) + GapEvents(name, gap)
    case InValue(h, name, gap, _) => TopEvents(h) + GapEvents(name, gap)
    case AtEol(h, f) => TopEvents(h) + FieldEvents(f)
    case AtBlank(h) => TopEvents(h)
    case AtData(h) => HeadEvents(h)
  }

  /** The token that a finished line leaves behind. */
  function LineTok(line: Line): seq<char> {
    match line
    case Full(_, _, _) => []
    case Short(verb, uri) => verb + [NUL] + uri
  }

  function FieldTok(f: Field): seq<char> {
    f.name + [NUL] + f.value + [NUL]
  }

  function HeadTok(h: Head): seq<char> {
    if h.fields == [] then LineTok(h.line) else FieldTok(h.fields[|h.fields| - 1])
  }

  function HeadSecond(h: Head): nat {
    if h.fields == [] then |h.line.verb| + 1 else |h.fields[|h.fields| - 1].name| + 1
  }

  function StateOf(p: Progress): State {
    match p
    case InVerb(_) => RequestLineMethod
    case AtUri(_) => UriFirstChar
    case InUri(_, _) => Uri
    case InVersion(_, _, _) => HttpVersion
    case AtLineEnd(_) => RequestLineEnd
    case AtName(_) => FieldNameFirstChar
    case InName(_, _) => FieldName
    case InGap(_, _, _) => FieldValueFirstChar
    case InValue(_, _, _, _) => FieldValue
    case AtEol(_, _) => HeaderEol
    case AtBlank(_) => BlankLine
    case AtData(_) => Data
  }

  function TokOf(p: Progress): seq<char> {
    match p
    case InVerb(verb) => verb
    case AtUri(verb) => verb + [NUL]
    case InUri(verb, uri) => verb + [NUL] + uri
    case InVersion(_, _, _) => []
    case AtLineEnd(line) => LineTok(line)
    case AtName(h) => HeadTok(h)
    case InName(_, name) => name
    case InGap(_, name, _) => name + [NUL]
    case InValue(_, name, _, value) => name + [NUL] + value
    case AtEol(_, f) => FieldTok(f)
    case AtBlank(h) => HeadTok(h)
    case AtData(h) => HeadTok(h)
  }

  function SecondOf(p: Progress): nat {
    match p
    case InVerb(_) => 0
    case AtUri(_) => 0
    case InUri(verb, _) => |verb| + 1
    case InVersion(verb, _, _) => |verb| + 1
    case AtLineEnd(line) => |line.verb| + 1
    case AtName(h) => HeadSecond(h)
    case InName(h, _) => HeadSecond(h)
    case InGap(h, _, _) => HeadSecond(h)
    case InValue(_, name, _, _) => |name| + 1
    case AtEol(_, f) => |f.name| + 1
    case AtBlank(h) => HeadSecond(h)
    case AtData(h) => HeadSecond(h)
  }

  /** The whole state of the parser after reading `Text(p)`. */
  function Described(p: Progress): Hp {
    Hp(StateOf(p), TokOf(p), SecondOf(p), Events(p))
  }

  // ---------- One byte forward

  function Next(p: Progress, ch: char): Progress {
    match p
    case InVerb(verb) => if ch == SP then AtUri(verb) else InVerb(verb + [ch])
    case AtUri(verb) => InUri(verb, [ch])
    case InUri(verb, uri) =>
      if ch == SP then InVersion(verb, uri, [])
      else if ch == CR then AtLineEnd(Short(verb, uri))
      else InUri(verb, uri + [ch])
    case InVersion(verb, uri, version) =>
      if ch == CR then AtLineEnd(Full(verb, uri, version)) else InVersion(verb, uri, version + [ch])
    case AtLineEnd(line) => AtName(Head(line, []))
    case AtName(h) => if ch == CR then AtBlank(h) else InName(h, [ch])
    case InName(h, name) => if ch == ':' then InGap(h, name, []) else InName(h, name + [ch])
    case InGap(h, name, gap) =>
      if IsSpace(ch) then InGap(h, name, gap + [ch]) else InValue(h, name, gap, [ch])
    case InValue(h, name, gap, value) =>
      if ch == CR then AtEol(h, Field(name, gap, value)) else InValue(h, name, gap, value + [ch])
    case AtEol(h, f) => AtName(Head(h.line, h.fields + [f]))
    case AtBlank(h) => AtData(h)
    case AtData(h) => AtData(h)
  }

  /** `ch` may follow `p` in a request head. */
  predicate Legal(p: Progress, ch: char) {
    && !p.AtData?
    && (p.AtLineEnd? || p.AtEol? || p.AtBlank? ==> ch == LF)
    && (p.InGap? ==> ch != LF)
    && Valid(Next(p, ch))
  }

  /** The parser refuses a byte exactly when the grammar does. */
  lemma LegalLineByte(p: Progress, ch: char)
    requires p.InVerb? || p.AtUri? || p.InUri? || p.InVersion? || p.AtLineEnd?
    requires Valid(p)
    ensures Accepts(StateOf(p), |TokOf(p)|, ch) <==> Legal(p, ch)
  {
    match p
    case InVerb(verb) => AllSnoc(verb, ch, UriChar);
    case AtUri(verb) => AllSnoc([], ch, UriChar);
    case InUri(verb, uri) => AllSnoc(uri, ch, UriChar);
    case InVersion(verb, uri, version) => AllSnoc(version, ch, VersionChar);
    case AtLineEnd(line) =>
  }

  lemma LegalGapByte(h: Head, name: seq<char>, gap: seq<char>, ch: char)
    requires Valid(InGap(h, name, gap))
    ensures Accepts(FieldValueFirstChar, |name| + 1, ch) <==> Legal(InGap(h, name, gap), ch)
  {
    AllSnoc(gap, ch, GapChar);
    AllSnoc([], ch, ValueChar);
  }

  lemma LegalValueByte(h: Head, name: seq<char>, gap: seq<char>, value: seq<char>, ch: char)
    requires Valid(InValue(h, name, gap, value))
    ensures Accepts(FieldValue, |name| + 1 + |value|, ch) <==> Legal(InValue(h, name, gap, value), ch)
  {
    AllSnoc(value, ch, ValueChar);
  }

  lemma LegalEolByte(h: Head, f: Field, ch: char)
    requires Valid(AtEol(h, f))
    ensures Accepts(HeaderEol, |FieldTok(f)|, ch) <==> Legal(AtEol(h, f), ch)
  {
  }

  lemma LegalNameByte(h: Head, name: seq<char>, ch: char)
    requires Valid(InName(h, name))
    ensures Accepts(FieldName, |name|, ch) <==> Legal(InName(h, name), ch)
  {
    AllSnoc(name, ch, NameChar);
  }

  lemma LegalFirstByte(h: Head, ch: char)
    requires Valid(AtName(h))
    ensures Accepts(FieldNameFirstChar, |HeadTok(h)|, ch) <==> Legal(AtName(h), ch)
  {
    AllSnoc([], ch, NameChar);
  }

  lemma LegalBlankByte(h: Head, ch: char)
    requires Valid(AtBlank(h))
    ensures Accepts(BlankLine, |HeadTok(h)|, ch) <==> Legal(AtBlank(h), ch)
  {
  }

  lemma LegalHeaderByte(p: Progress, ch: char)
    requires p.AtName? || p.InName? || p.InGap? || p.InValue? || p.AtEol? || p.AtBlank?
    requires Valid(p)
    ensures Accepts(StateOf(p), |TokOf(p)|, ch) <==> Legal(p, ch)
  {
    match p
    case AtName(h) => LegalFirstByte(h, ch);
    case InName(h, name) => LegalNameByte(h, name, ch);
    case InGap(h, name, gap) => LegalGapByte(h, name, gap, ch);
    case InValue(h, name, gap, value) => LegalValueByte(h, name, gap, value, ch);
    case AtEol(h, f) => LegalEolByte(h, f, ch);
    case AtBlank(h) => LegalBlankByte(h, ch);
  }

  lemma StepOkIffLegal(p: Progress, ch: char)
    requires !p.AtData? && Valid(p)
    ensures Step(Described(p), ch).ok <==> Legal(p, ch)
  {
    StepOkIffAccepts(Described(p), ch);
    if p.InVerb? || p.AtUri? || p.InUri? || p.InVersion? || p.AtLineEnd? {
      LegalLineByte(p, ch);
    } else {
      LegalHeaderByte(p, ch);
    }
  }

  // The text grows by the byte read.

  lemma UriText(verb: seq<char>, uri: seq<char>, ch: char)
    ensures Text(Next(InUri(verb, uri), ch)) == Text(InUri(verb, uri)) + [ch]
  {
    Assoc(verb + [SP], uri, [ch]);
    assert LineText(Full(verb, uri, [])) == Text(InUri(verb, uri)) + [SP];
  }

  lemma VersionText(verb: seq<char>, uri: seq<char>, version: seq<char>, ch: char)
    ensures Text(Next(InVersion(verb, uri, version), ch)) == Text(InVersion(verb, uri, version)) + [ch]
  {
    Assoc(verb + [SP] + uri + [SP], version, [ch]);
  }

  lemma LineEndText(line: Line)
    ensures Text(AtName(Head(line, []))) == Text(AtLineEnd(line)) + [LF]
  {
    Assoc(LineText(line), [CR], [LF]);
  }

  lemma NameText(h: Head, name: seq<char>, ch: char)
    ensures Text(Next(InName(h, name), ch)) == Text(InName(h, name)) + [ch]
  {
    Assoc(TopText(h), name, [ch]);
    assert name + [':'] + [] == name + [':'];
  }

  lemma GapText(h: Head, name: seq<char>, gap: seq<char>, ch: char)
    ensures Text(Next(InGap(h, name, gap), ch)) == Text(InGap(h, name, gap)) + [ch]
  {
    Assoc(name + [':'], gap, [ch]);
    Assoc(TopText(h), name + [':'] + gap, [ch]);
  }

  lemma ValueText(h: Head, name: seq<char>, gap: seq<char>, value: seq<char>, ch: char)
    ensures Text(Next(InValue(h, name, gap, value), ch)) == Text(InValue(h, name, gap, value)) + [ch]
  {
    Assoc(name + [':'] + gap, value, [ch]);
    Assoc(TopText(h), name + [':'] + gap + value, [ch]);
  }

  lemma AnotherField(h: Head, f: Field)
    ensures TopText(Head(h.line, h.fields + [f])) == TopText(h) + FieldText(f)
    ensures TopEvents(Head(h.line, h.fields + [f])) == TopEvents(h) + FieldEvents(f)
  {
    assert (h.fields + [f])[..|h.fields|] == h.fields;
  }

  lemma EolText(h: Head, f: Field)
    ensures Text(Next(AtEol(h, f), LF)) == Text(AtEol(h, f)) + [LF]
  {
    var top, line := TopText(h), f.name + [':'] + f.gap + f.value;
    assert Text(Next(AtEol(h, f), LF)) == top + (line + [CR, LF]) by {
      AnotherField(h, f);
    }
    TwoMore(top, line, CR, LF);
  }

  lemma BlankText(h: Head)
    ensures Text(AtData(h)) == Text(AtBlank(h)) + [LF]
  {
    Assoc(TopText(h), [CR], [LF]);
  }

  lemma NextText(p: Progress, ch: char)
    requires Legal(p, ch)
    ensures Text(Next(p, ch)) == Text(p) + [ch]
  {
    match p
    case InUri(verb, uri) => UriText(verb, uri, ch);
    case InVersion(verb, uri, version) => VersionText(verb, uri, version, ch);
    case AtLineEnd(line) => LineEndText(line);
    case InName(h, name) => NameText(h, name, ch);
    case InGap(h, name, gap) => GapText(h, name, gap, ch);
    case InValue(h, name, gap, value) => ValueText(h, name, gap, value, ch);
    case AtEol(h, f) => EolText(h, f);
    case AtBlank(h) => BlankText(h);
    case _ =>
  }

  // The parser goes to the state described.

  ghost predicate StepsTo(p: Progress, ch: char) {
    Step(Described(p), ch).hp == Described(Next(p, ch))
  }

  /** Closing the second string of a token leaves both to be read off it. */
  lemma Closes(hp: Hp, first: seq<char>, second: seq<char>)
    requires hp.tok == first + [NUL] + second && hp.second == |first| + 1 && |hp.tok| < TOK_MAX
    ensures var tok := first + [NUL] + second + [NUL];
            && Add(hp, NUL) == Result(hp.(tok := tok), true)
            && CStr(tok) == CStr(first) && CStr(From(tok, hp.second)) == CStr(second)
  {
    TwoStrings(first, second);
  }

  lemma UriStep(verb: seq<char>, uri: seq<char>, ch: char)
    requires ch != SP && ch != LF && (ch == CR || |verb| + |uri| + 1 < TOK_MAX)
    ensures StepsTo(InUri(verb, uri), ch)
  {
    Assoc(verb + [NUL], uri, [ch]);
  }

  lemma UriEndStep(verb: seq<char>, uri: seq<char>)
    requires |verb| + |uri| + 1 < TOK_MAX
    ensures StepsTo(InUri(verb, uri), SP)
  {
    Closes(Described(InUri(verb, uri)), verb, uri);
  }

  lemma NameStep(h: Head, name: seq<char>, ch: char)
    requires ch != CR && ch != LF && |name| < TOK_MAX
    ensures StepsTo(InName(h, name), ch)
  {
  }

  /** A CR between the colon and the value. */
  lemma GapCrEvents(h: Head, name: seq<char>, gap: seq<char>)
    ensures Events(InGap(h, name, gap + [CR])) == Events(InGap(h, name, gap)) + [Header(CStr(name + [NUL]), [])]
  {
    assert (gap + [CR])[..|gap|] == gap;
    CStrOfTerminated(name);
    Assoc(TopEvents(h), GapEvents(name, gap), [Header(CStr(name), [])]);
  }

  lemma GapBlankEvents(h: Head, name: seq<char>, gap: seq<char>, ch: char)
    requires ch != CR
    ensures Events(InGap(h, name, gap + [ch])) == Events(InGap(h, name, gap))
  {
    assert (gap + [ch])[..|gap|] == gap;
  }

  lemma ValueStartStep(h: Head, name: seq<char>, gap: seq<char>, ch: char)
    requires !IsSpace(ch) && |name| + 1 < TOK_MAX
    ensures StepsTo(InGap(h, name, gap), ch)
  {
  }

  lemma GapStep(h: Head, name: seq<char>, gap: seq<char>, ch: char)
    requires ch != LF && (IsSpace(ch) || |name| + 1 < TOK_MAX)
    ensures StepsTo(InGap(h, name, gap), ch)
  {
    if ch == CR {
      GapCrEvents(h, name, gap);
    } else if IsSpace(ch) {
      GapBlankEvents(h, name, gap, ch);
    } else {
      ValueStartStep(h, name, gap, ch);
    }
  }

  lemma ValueStep(h: Head, name: seq<char>, gap: seq<char>, value: seq<char>, ch: char)
    requires ch != CR && ch != LF && |name| + |value| + 1 < TOK_MAX
    ensures StepsTo(InValue(h, name, gap, value), ch)
  {
    Assoc(name + [NUL], value, [ch]);
  }

  /** The end of a value reports the field. */
  lemma ReportsField(hp: Hp, name: seq<char>, value: seq<char>)
    requires hp.state == FieldValue
    requires hp.tok == name + [NUL] + value && hp.second == |name| + 1 && |hp.tok| < TOK_MAX
    ensures Step(hp, CR) ==
            Result(Hp(HeaderEol, name + [NUL] + value + [NUL], hp.second,
                      hp.log + [Header(CStr(name), CStr(value))]), true)
  {
    Closes(hp, name, value);
  }

  lemma EolDescribed(h: Head, f: Field)
    ensures var hp := Described(InValue(h, f.name, f.gap, f.value));
            Described(AtEol(h, f)) ==
            Hp(HeaderEol, f.name + [NUL] + f.value + [NUL], hp.second, hp.log + [Header(CStr(f.name), CStr(f.value))])
  {
    Assoc(TopEvents(h), GapEvents(f.name, f.gap), [Header(CStr(f.name), CStr(f.value))]);
  }

  lemma ValueEndStep(h: Head, name: seq<char>, gap: seq<char>, value: seq<char>)
    requires |name| + |value| + 1 < TOK_MAX
    ensures StepsTo(InValue(h, name, gap, value), CR)
  {
    var p := InValue(h, name, gap, value);
    EolDescribed(h, Field(name, gap, value));
    assert Step(Described(p), CR).hp == Described(Next(p, CR)) by {
      ReportsField(Described(p), name, value);
    }
  }

  lemma EolStep(h: Head, f: Field)
    ensures StepsTo(AtEol(h, f), LF)
  {
    AnotherField(h, f);
  }

  lemma LineStep(p: Progress, ch: char)
    requires p.InVerb? || p.AtUri? || p.InUri? || p.InVersion? || p.AtLineEnd?
    requires Accepts(StateOf(p), |TokOf(p)|, ch)
    ensures StepsTo(p, ch)
  {
    match p
    case InUri(verb, uri) => if ch == SP { UriEndStep(verb, uri); } else { UriStep(verb, uri, ch); }
    case _ =>
  }

  lemma FirstNameStep(h: Head, ch: char)
    requires ch != LF && ch != ':'
    ensures StepsTo(AtName(h), ch)
  {
  }

  lemma BlankStep(h: Head)
    ensures StepsTo(AtBlank(h), LF)
  {
  }

  lemma HeaderStep(p: Progress, ch: char)
    requires p.AtName? || p.InName? || p.InGap? || p.InValue? || p.AtEol? || p.AtBlank?
    requires Accepts(StateOf(p), |TokOf(p)|, ch)
    ensures StepsTo(p, ch)
  {
    match p
    case AtName(h) => FirstNameStep(h, ch);
    case InName(h, name) => NameStep(h, name, ch);
    case InGap(h, name, gap) => GapStep(h, name, gap, ch);
    case InValue(h, name, gap, value) =>
      if ch == CR { ValueEndStep(h, name, gap, value); } else { ValueStep(h, name, gap, value, ch); }
    case AtEol(h, f) => EolStep(h, f);
    case AtBlank(h) => BlankStep(h);
  }

  lemma NextState(p: Progress, ch: char)
    requires !p.AtData? && Accepts(StateOf(p), |TokOf(p)|, ch)
    ensures StepsTo(p, ch)
  {
    if p.InVerb? || p.AtUri? || p.InUri? || p.InVersion? || p.AtLineEnd? {
      LineStep(p, ch);
    } else {
      HeaderStep(p, ch);
    }
  }

  /** One byte: the parser refuses it exactly when the grammar does, and otherwise goes to the state
      described by the longer text. */
  lemma EveryStep(p: Progress, ch: char)
    requires !p.AtData? && Valid(p)
    ensures Step(Described(p), ch).ok <==> Legal(p, ch)
    ensures Legal(p, ch) ==> Valid(Next(p, ch)) && Text(Next(p, ch)) == Text(p) + [ch] && StepsTo(p, ch)
  {
    StepOkIffLegal(p, ch);
    StepOkIffAccepts(Described(p), ch);
    if Legal(p, ch) {
      NextText(p, ch);
      NextState(p, ch);
    }
  }

  /** The token of a report holds both strings. */
  lemma TwoStrings(first: seq<char>, second: seq<char>)
    ensures CStr(first + [NUL] + second + [NUL]) == CStr(first)
    ensures CStr(From(first + [NUL] + second + [NUL], |first| + 1)) == CStr(second)
  {
    var tok := first + [NUL] + second + [NUL];
    CStrOfTerminated(first);
    assert (first + [NUL])[|first|] == NUL;
    CStrStopsAtNul(first + [NUL], tok);
    assert tok[|first| + 1..] == second + [NUL];
    CStrOfTerminated(second);
  }

  // ---------- One byte back

  /** The progress before the last byte of `p`. */
  function Prev(p: Progress): Progress
    requires Valid(p) && p != InVerb([])
  {
    match p
    case InVerb(verb) => InVerb(verb[..|verb| - 1])
    case AtUri(verb) => InVerb(verb)
    case InUri(verb, uri) => if |uri| == 1 then AtUri(verb) else InUri(verb, uri[..|uri| - 1])
    case InVersion(verb, uri, version) =>
      if version == [] then InUri(verb, uri) else InVersion(verb, uri, version[..|version| - 1])
    case AtLineEnd(line) =>
      (match line
       case Full(verb, uri, version) => InVersion(verb, uri, version)
       case Short(verb, uri) => InUri(verb, uri))
    case AtName(h) =>
      if h.fields == [] then AtLineEnd(h.line)
      else AtEol(Head(h.line, h.fields[..|h.fields| - 1]), h.fields[|h.fields| - 1])
    case InName(h, name) => if |name| == 1 then AtName(h) else InName(h, name[..|name| - 1])
    case InGap(h, name, gap) => if gap == [] then InName(h, name) else InGap(h, name, gap[..|gap| - 1])
    case InValue(h, name, gap, value) =>
      if |value| == 1 then InGap(h, name, gap) else InValue(h, name, gap, value[..|value| - 1])
    case AtEol(h, f) => InValue(h, f.name, f.gap, f.value)
    case AtBlank(h) => AtName(h)
    case AtData(h) => AtBlank(h)
  }

  /** The last byte of `p`. */
  function Last(p: Progress): char
    requires Valid(p) && p != InVerb([])
  {
    match p
    case InVerb(verb) => verb[|verb| - 1]
    case AtUri(_) => SP
    case InUri(_, uri) => uri[|uri| - 1]
    case InVersion(_, _, version) => if version == [] then SP else version[|version| - 1]
    case AtLineEnd(_) => CR
    case AtName(_) => LF
    case InName(_, name) => name[|name| - 1]
    case InGap(_, _, gap) => if gap == [] then ':' else gap[|gap| - 1]
    case InValue(_, _, _, value) => value[|value| - 1]
    case AtEol(_, _) => CR
    case AtBlank(_) => CR
    case AtData(_) => LF
  }

  lemma PrevInLine(p: Progress)
    requires p.InVerb? || p.AtUri? || p.InUri? || p.InVersion? || p.AtLineEnd?
    requires Valid(p) && p != InVerb([])
    ensures Valid(Prev(p)) && Next(Prev(p), Last(p)) == p && Legal(Prev(p), Last(p))
  {
    match p
    case InVerb(verb) => DropLast(verb, UriChar);
    case InUri(verb, uri) => DropLast(uri, UriChar);
    case InVersion(verb, uri, version) =>
      if version != [] {
        DropLast(version, VersionChar);
      }
    case _ =>
  }

  lemma PrevInHeader(p: Progress)
    requires p.InName? || p.InGap? || p.InValue?
    requires Valid(p)
    ensures Valid(Prev(p)) && Next(Prev(p), Last(p)) == p && Legal(Prev(p), Last(p))
  {
    match p
    case InName(h, name) => DropLast(name, NameChar);
    case InGap(h, name, gap) =>
      if gap != [] {
        DropLast(gap, GapChar);
      }
    case InValue(h, name, gap, value) => DropLast(value, ValueChar);
  }

  lemma PrevAtName(h: Head)
    requires ValidHead(h)
    ensures Valid(Prev(AtName(h))) && Next(Prev(AtName(h)), LF) == AtName(h)
  {
    if h.fields != [] {
      assert h.fields == h.fields[..|h.fields| - 1] + [h.fields[|h.fields| - 1]];
    }
  }

  lemma PrevIsLegal(p: Progress)
    requires Valid(p) && p != InVerb([])
    ensures Valid(Prev(p)) && Legal(Prev(p), Last(p))
    ensures Next(Prev(p), Last(p)) == p
  {
    match p
    case InName(_, _) => PrevInHeader(p);
    case InGap(_, _, _) => PrevInHeader(p);
    case InValue(_, _, _, _) => PrevInHeader(p);
    case AtName(h) => PrevAtName(h);
    case AtEol(_, _) =>
    case AtBlank(_) =>
    case AtData(_) =>
    case _ => PrevInLine(p);
  }

  // ---------- Whole inputs

  /** Reading `a` and then `b` is reading them together, as long as the body is not reached. */
  lemma {:induction false} RunAppend(hp: Hp, a: seq<char>, b: seq<char>)
    requires Run(hp, a).ok && Run(hp, a).hp.state != Data
    ensures Run(hp, a + b) == Run(Run(hp, a).hp, b)
    decreases |a|
  {
    if a == [] {
      assert a + b == b;
    } else {
      assert (a + b)[1..] == a[1..] + b;
      RunAppend(Step(hp, a[0]).hp, a[1..], b);
    }
  }

  /** The text of every valid progress is accepted and leads to the state described. */
  lemma {:induction false} DescribedIsReached(p: Progress)
    requires Valid(p)
    ensures Run(INIT, Text(p)) == Result(Described(p), true)
    decreases |Text(p)|
  {
    if p != InVerb([]) {
      var q, ch := Prev(p), Last(p);
      PrevIsLegal(p);
      EveryStep(q, ch);
      DescribedIsReached(q);
      RunAppend(INIT, Text(q), [ch]);
      assert Run(Described(q), [ch]) == Run(Described(p), []);
    }
  }

  /** A call that starts with a legal byte goes on from the longer progress; any other byte ends it
      with nothing reported. */
  lemma RunStep(p: Progress, input: seq<char>)
    requires Valid(p) && !p.AtData? && input != []
    ensures Legal(p, input[0]) ==>
              Valid(Next(p, input[0])) && Run(Described(p), input) == Run(Described(Next(p, input[0])), input[1..])
    ensures !Legal(p, input[0]) ==>
              !Run(Described(p), input).ok && Run(Described(p), input).hp.log == Events(p)
  {
    EveryStep(p, input[0]);
    if !Legal(p, input[0]) {
      FailedStepKeepsLog(Described(p), input[0]);
    }
  }

  /** Every input, accepted or not, is the text of a valid progress followed by what the call has
      not looked at: nothing or the body when it succeeds, and the refused byte on when it fails. */
  lemma {:induction false} EveryRunIsDescribed(p: Progress, input: seq<char>) returns (q: Progress, rest: seq<char>)
    requires Valid(p)
    ensures Valid(q) && Text(p) + input == Text(q) + rest
    ensures Explains(Run(Described(p), input), q, rest)
    decreases |input|
  {
    if input == [] || p.AtData? {
      return p, input;
    }
    RunStep(p, input);
    if Legal(p, input[0]) {
      q, rest := EveryRunIsDescribed(Next(p, input[0]), input[1..]);
      NextText(p, input[0]);
      assert [input[0]] + input[1..] == input;
      Assoc(Text(p), [input[0]], input[1..]);
    } else {
      return p, input;
    }
  }

  ghost predicate Explains(r: Result, q: Progress, rest: seq<char>)
    requires Valid(q)
  {
    if r.ok then (rest != [] ==> q.AtData?) && r.hp == WithBody(Described(q), rest)
    else rest != [] && !q.AtData? && !Legal(q, rest[0]) && r.hp.log == Events(q)
  }

  lemma FailedStepKeepsLog(hp: Hp, ch: char)
    requires !Step(hp, ch).ok
    ensures Step(hp, ch).hp.log == hp.log
  {
  }

  function WithBody(hp: Hp, rest: seq<char>): Hp {
    if rest == [] then hp else Emit(hp, Body(rest))
  }

  // ---------- Main results

  /** Everything a request head followed by body bytes does to a new parser. */
  lemma HeadIsParsed(h: Head, rest: seq<char>)
    requires ValidHead(h)
    ensures Run(INIT, HeadText(h) + rest) ==
            Result(Hp(Data, HeadTok(h), HeadSecond(h),
                      HeadEvents(h) + if rest == [] then [] else [Body(rest)]), true)
  {
    var input := [LF] + rest;
    DescribedIsReached(AtBlank(h));
    RunAppend(INIT, Text(AtBlank(h)), input);
    assert Legal(AtBlank(h), LF);
    RunStep(AtBlank(h), input);
    assert input[1..] == rest;
    BlankText(h);
    Assoc(Text(AtBlank(h)), [LF], rest);
  }

  /** The parser reaches the body exactly on the inputs that start with a request head. */
  lemma ReachesBodyExactly(input: seq<char>)
    ensures Run(INIT, input).ok && Run(INIT, input).hp.state == Data
            <==> exists h: Head, rest: seq<char> :: ValidHead(h) && input == HeadText(h) + rest
  {
    if Run(INIT, input).ok && Run(INIT, input).hp.state == Data {
      assert Described(InVerb([])) == INIT && Text(InVerb([])) + input == input;
      var q, rest := EveryRunIsDescribed(InVerb([]), input);
      assert ValidHead(q.head) && input == HeadText(q.head) + rest;
    }
    if h: Head, rest: seq<char> :| ValidHead(h) && input == HeadText(h) + rest {
      HeadIsParsed(h, rest);
    }
  }

  /** A call is accepted exactly when its input can still become a request, and the state it leaves
      is the one described. */
  lemma AcceptsExactly(input: seq<char>)
    ensures Run(INIT, input).ok
            <==> exists p: Progress, rest: seq<char> :: IsParse(input, p, rest)
    ensures forall p: Progress, rest: seq<char> :: IsParse(input, p, rest) ==>
              Run(INIT, input).hp == WithBody(Described(p), rest)
  {
    if Run(INIT, input).ok {
      assert Described(InVerb([])) == INIT && Text(InVerb([])) + input == input;
      var q, rest := EveryRunIsDescribed(InVerb([]), input);
      assert IsParse(input, q, rest);
    }
    forall p: Progress, rest: seq<char> | IsParse(input, p, rest)
      ensures Run(INIT, input) == Result(WithBody(Described(p), rest), true)
    {
      if rest == [] {
        assert Text(p) + rest == Text(p);
        DescribedIsReached(p);
      } else {
        HeadIsParsed(p.head, rest);
      }
    }
  }

  ghost predicate IsParse(input: seq<char>, p: Progress, rest: seq<char>) {
    Valid(p) && input == Text(p) + rest && (rest != [] ==> p.AtData?)
  }
}
