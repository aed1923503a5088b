/** The language of headers_parse, and the calls it makes, stated without reference to the parser.

    A block is a list of lines, each a new field or the continuation of the one before (section 4.2
    of RFC 2616), and a blank line.  Continuation lines are appended to the value without their
    first blank.  A field is passed on when the next field or the blank line begins. */
module HeadersGrammar {
  import opened Bytes
  import opened Buffers
  import opened LineStreams
  import opened Headers

  datatype Line =
    | Field(name: seq<char>, pad: seq<char>, lead: seq<char>, text: seq<char>)
    | Fold(blank: char, text: seq<char>)

  // ---------- Text and meaning

  /** A line without its CR LF. */
  function OpenText(line: Line): seq<char> {
    match line
    case Field(name, pad, lead, text) => name + pad + [':'] + lead + text
    case Fold(blank, text) => [blank] + text
  }

  function WithText(line: Line, text: seq<char>): Line {
    match line
    case Field(name, pad, lead, _) => Field(name, pad, lead, text)
    case Fold(blank, _) => Fold(blank, text)
  }

  function LineText(line: Line): seq<char> {
    OpenText(line) + [CR, LF]
  }

  function LinesText(lines: seq<Line>): seq<char> {
    if lines == [] then [] else LinesText(lines[..|lines| - 1]) + LineText(lines[|lines| - 1])
  }

  function BlockText(lines: seq<Line>): seq<char> {
    LinesText(lines) + [CR, LF]
  }

  /** What the lines say: the name and the value of the field they end in, continuation lines
      included, and the calls made for the fields before it. */
  datatype Reading = Reading(name: seq<char>, value: seq<char>, sets: seq<EnvSet>)

  /** The call for the field read last; both strings are cut to the buffers. */
  function PassedOn(z: Sizes, r: Reading): seq<EnvSet> {
    Deferred(Kept(r.name, z.name), Kept(r.value, z.value))
  }

  function ReadLine(z: Sizes, r: Reading, line: Line): Reading {
    match line
    case Field(name, _, _, text) => Reading(name, text, r.sets + PassedOn(z, r))
    case Fold(_, text) => Reading(r.name, r.value + text, r.sets)
  }

  function Read(z: Sizes, lines: seq<Line>): Reading {
    if lines == [] then Reading([], [], [])
    else ReadLine(z, Read(z, lines[..|lines| - 1]), lines[|lines| - 1])
  }

  /** The calls made for a whole block. */
  function BlockSets(z: Sizes, lines: seq<Line>): seq<EnvSet> {
    Read(z, lines).sets + PassedOn(z, Read(z, lines))
  }

  // ---------- Well-formedness

  predicate NameChar(c: char) {
    !IsSpace(c) && c != ':'
  }

  predicate TextChar(c: char) {
    c != CR
  }

  /** The first byte of a name may even be a colon or a LF. */
  predicate IsName(name: seq<char>) {
    name != [] && !IsBlank(name[0]) && name[0] != CR && All(name[1..], NameChar)
  }

  /** The first byte of a value: anything but a blank right after the colon, not even CR excepted; no
      white space after blanks. */
  predicate MayStart(lead: seq<char>, c: char) {
    if lead == [] then !IsBlank(c) else !IsSpace(c)
  }

  predicate IsText(lead: seq<char>, text: seq<char>) {
    text != [] && MayStart(lead, text[0]) && All(text[1..], TextChar)
  }

  predicate ValidLine(line: Line) {
    match line
    case Field(name, pad, lead, text) => IsName(name) && All(pad, IsBlank) && All(lead, IsBlank) && IsText(lead, text)
    case Fold(blank, text) => IsBlank(blank) && All(text, TextChar)
  }

  predicate ValidLines(lines: seq<Line>) {
    forall i :: 0 <= i < |lines| ==> ValidLine(lines[i])
  }

  predicate Room(z: Sizes) {
    0 < z.name && 0 < z.value
  }

  // ---------- Unfinished blocks, one constructor for each state

  datatype Part =
    | AtStart
    | InName(name: seq<char>)
    | AfterName(name: seq<char>, pad: seq<char>)
    | AtColon(name: seq<char>, pad: seq<char>)
    | InLead(name: seq<char>, pad: seq<char>, lead: seq<char>)
    | InLine(line: Line)
    | AtCr(line: Line)
    | AtEnd

  datatype Progress = Progress(lines: seq<Line>, part: Part)

  predicate ValidPart(part: Part) {
    match part
    case AtStart => true
    case InName(name) => IsName(name)
    case AfterName(name, pad) => IsName(name) && pad != [] && All(pad, IsBlank)
    case AtColon(name, pad) => IsName(name) && All(pad, IsBlank)
    case InLead(name, pad, lead) => IsName(name) && All(pad, IsBlank) && lead != [] && All(lead, IsBlank)
    case InLine(line) => ValidLine(line)
    case AtCr(line) => ValidLine(line)
    case AtEnd => true
  }

  predicate Valid(p: Progress) {
    ValidLines(p.lines) && ValidPart(p.part)
  }

  function PartText(part: Part): seq<char> {
    match part
    case AtStart => []
    case InName(name) => name
    case AfterName(name, pad) => name + pad
    case AtColon(name, pad) => name + pad + [':']
    case InLead(name, pad, lead) => name + pad + [':'] + lead
    case InLine(line) => OpenText(line)
    case AtCr(line) => OpenText(line) + [CR]
    case AtEnd => [CR]
  }

  function Text(p: Progress): seq<char> {
    LinesText(p.lines) + PartText(p.part)
  }

  function StateOf(part: Part): State {
    match part
    case AtStart => FirstChar
    case InName(_) => ReadName
    case AfterName(_, _) => ReadPad
    case AtColon(_, _) => AfterColon
    case InLead(_, _, _) => BeforeValue
    case InLine(_) => InValue
    case AtCr(_) => AfterCr
    case AtEnd => AtEndCr
  }

  /** What has been read, an unfinished field included. */
  function ReadingOf(z: Sizes, p: Progress): Reading {
    var r := Read(z, p.lines);
    match p.part
    case AtStart => r
    case InName(name) => Reading(name, [], BlockSets(z, p.lines))
    case AfterName(name, _) => Reading(name, [], BlockSets(z, p.lines))
    case AtColon(name, _) => Reading(name, [], BlockSets(z, p.lines))
    case InLead(name, _, _) => Reading(name, [], BlockSets(z, p.lines))
    case InLine(line) => ReadLine(z, r, line)
    case AtCr(line) => ReadLine(z, r, line)
    case AtEnd => Reading(r.name, r.value, BlockSets(z, p.lines))
  }

  /** The whole state of the parser after reading `Text(p)`. */
  function Described(z: Sizes, p: Progress): Hs {
    var r := ReadingOf(z, p);
    Hs(StateOf(p.part), false, Kept(r.name, z.name), Kept(r.value, z.value), r.sets)
  }

  // ---------- One byte forward

  function Next(p: Progress, ch: char): Progress {
    match p.part
    case AtStart =>
      Progress(p.lines, if ch == CR then AtEnd else if IsBlank(ch) then InLine(Fold(ch, [])) else InName([ch]))
    case InName(name) =>
      Progress(p.lines,
               if IsBlank(ch) then AfterName(name, [ch])
               else if ch == ':' then AtColon(name, [])
               else InName(name + [ch]))
    case AfterName(name, pad) =>
      Progress(p.lines, if ch == ':' then AtColon(name, pad) else AfterName(name, pad + [ch]))
    case AtColon(name, pad) =>
      Progress(p.lines, if IsBlank(ch) then InLead(name, pad, [ch]) else InLine(Field(name, pad, [], [ch])))
    case InLead(name, pad, lead) =>
      Progress(p.lines, if IsBlank(ch) then InLead(name, pad, lead + [ch]) else InLine(Field(name, pad, lead, [ch])))
    case InLine(line) =>
      Progress(p.lines, if ch == CR then AtCr(line) else InLine(WithText(line, line.text + [ch])))
    case AtCr(line) => Progress(p.lines + [line], AtStart)
    case AtEnd => p
  }

  predicate Legal(p: Progress, ch: char) {
    !p.part.AtEnd? && (p.part.AtCr? ==> ch == LF) && ValidPart(Next(p, ch).part)
  }

  lemma LinesSnoc(lines: seq<Line>, line: Line)
    ensures LinesText(lines + [line]) == LinesText(lines) + LineText(line)
  {
    assert (lines + [line])[..|lines|] == lines;
  }

  lemma ReadSnoc(z: Sizes, lines: seq<Line>, line: Line)
    ensures Read(z, lines + [line]) == ReadLine(z, Read(z, lines), line)
  {
    assert (lines + [line])[..|lines|] == lines;
  }

  lemma PartTextGrows(p: Progress, ch: char)
    requires Legal(p, ch) && !p.part.AtCr?
    ensures PartText(Next(p, ch).part) == PartText(p.part) + [ch]
  {
    match p.part
    case InName(name) => assert name + [] == name;
    case AfterName(name, pad) => Assoc(name, pad, [ch]);
    case AtColon(name, pad) => assert name + pad + [':'] + [] == name + pad + [':'];
    case InLead(name, pad, lead) => Assoc(name + pad + [':'], lead, [ch]);
    case InLine(line) =>
      match line {
        case Field(name, pad, lead, text) => Assoc(name + pad + [':'] + lead, text, [ch]);
        case Fold(blank, text) => Assoc([blank], text, [ch]);
      }
    case _ =>
  }

  lemma LineEndText(lines: seq<Line>, line: Line)
    ensures Text(Progress(lines + [line], AtStart)) == Text(Progress(lines, AtCr(line))) + [LF]
  {
    LinesSnoc(lines, line);
    TwoMore(LinesText(lines), OpenText(line), CR, LF);
    assert LinesText(lines + [line]) + [] == LinesText(lines + [line]);
  }

  lemma NextText(p: Progress, ch: char)
    requires Valid(p) && Legal(p, ch)
    ensures Valid(Next(p, ch)) && Text(Next(p, ch)) == Text(p) + [ch]
  {
    if p.part.AtCr? {
      LineEndText(p.lines, p.part.line);
    } else {
      PartTextGrows(p, ch);
      Assoc(LinesText(p.lines), PartText(p.part), [ch]);
    }
  }

  // ---------- The parser takes the same step

  ghost predicate StepAgrees(z: Sizes, p: Progress, ch: char) {
    var v := Step(z, Described(z, p), ch);
    && (v.Go? <==> Legal(p, ch))
    && (v.Go? ==> v.s == Described(z, Next(p, ch)))
  }

  lemma FoldStep(z: Sizes, lines: seq<Line>, ch: char)
    requires IsBlank(ch)
    ensures StepAgrees(z, Progress(lines, AtStart), ch)
  {
    assert Read(z, lines).value + [] == Read(z, lines).value;
  }

  lemma OneByteName(z: Sizes, ch: char)
    requires Room(z)
    ensures IsName([ch]) <==> !IsBlank(ch) && ch != CR
    ensures AddCh([], z.name, ch) == Kept([ch], z.name)
  {
    var none: seq<char> := [];
    assert [ch][1..] == none;
    KeptSnoc(none, z.name, ch);
    assert none + [ch] == [ch];
  }

  lemma FieldStep(z: Sizes, lines: seq<Line>, ch: char)
    requires Room(z) && !IsBlank(ch) && ch != CR
    ensures StepAgrees(z, Progress(lines, AtStart), ch)
  {
    OneByteName(z, ch);
  }

  lemma EndStep(z: Sizes, lines: seq<Line>)
    ensures StepAgrees(z, Progress(lines, AtStart), CR)
  {
  }

  lemma StartStep(z: Sizes, lines: seq<Line>, ch: char)
    requires Room(z)
    ensures StepAgrees(z, Progress(lines, AtStart), ch)
  {
    if ch == CR {
      EndStep(z, lines);
    } else if IsBlank(ch) {
      FoldStep(z, lines, ch);
    } else {
      FieldStep(z, lines, ch);
    }
  }

  lemma LongerName(z: Sizes, name: seq<char>, ch: char)
    requires Room(z) && IsName(name)
    ensures IsName(name + [ch]) <==> NameChar(ch)
    ensures AddCh(Kept(name, z.name), z.name, ch) == Kept(name + [ch], z.name)
  {
    assert (name + [ch])[1..] == name[1..] + [ch];
    AllSnoc(name[1..], ch, NameChar);
    KeptSnoc(name, z.name, ch);
  }

  lemma NameStep(z: Sizes, lines: seq<Line>, name: seq<char>, ch: char)
    requires Room(z) && IsName(name)
    ensures StepAgrees(z, Progress(lines, InName(name)), ch)
  {
    if !IsBlank(ch) && ch != ':' {
      LongerName(z, name, ch);
    }
  }

  lemma AfterNameStep(z: Sizes, lines: seq<Line>, name: seq<char>, pad: seq<char>, ch: char)
    requires Room(z) && ValidPart(AfterName(name, pad))
    ensures StepAgrees(z, Progress(lines, AfterName(name, pad)), ch)
  {
    AllSnoc(pad, ch, IsBlank);
  }

  /** The first byte of a value. */
  lemma OneByteValue(z: Sizes, name: seq<char>, pad: seq<char>, lead: seq<char>, ch: char)
    requires Room(z) && IsName(name) && All(pad, IsBlank) && All(lead, IsBlank)
    ensures ValidLine(Field(name, pad, lead, [ch])) <==> MayStart(lead, ch)
    ensures AddCh([], z.value, ch) == Kept([ch], z.value)
  {
    var none: seq<char> := [];
    assert [ch][1..] == none;
    KeptSnoc(none, z.value, ch);
    assert none + [ch] == [ch];
  }

  lemma BlankAfterColon(z: Sizes, lines: seq<Line>, name: seq<char>, pad: seq<char>, ch: char)
    requires ValidPart(AtColon(name, pad)) && IsBlank(ch)
    ensures StepAgrees(z, Progress(lines, AtColon(name, pad)), ch)
  {
  }

  lemma ColonStep(z: Sizes, lines: seq<Line>, name: seq<char>, pad: seq<char>, ch: char)
    requires Room(z) && ValidPart(AtColon(name, pad))
    ensures StepAgrees(z, Progress(lines, AtColon(name, pad)), ch)
  {
    if IsBlank(ch) {
      BlankAfterColon(z, lines, name, pad, ch);
    } else {
      OneByteValue(z, name, pad, [], ch);
    }
  }

  lemma LeadStep(z: Sizes, lines: seq<Line>, name: seq<char>, pad: seq<char>, lead: seq<char>, ch: char)
    requires Room(z) && ValidPart(InLead(name, pad, lead))
    ensures StepAgrees(z, Progress(lines, InLead(name, pad, lead)), ch)
  {
    if IsBlank(ch) {
      AllSnoc(lead, ch, IsBlank);
    } else {
      ValueStep(z, lines, name, pad, lead, ch);
    }
  }

  lemma ValueStep(z: Sizes, lines: seq<Line>, name: seq<char>, pad: seq<char>, lead: seq<char>, ch: char)
    requires Room(z) && ValidPart(InLead(name, pad, lead)) && !IsBlank(ch)
    ensures StepAgrees(z, Progress(lines, InLead(name, pad, lead)), ch)
  {
    OneByteValue(z, name, pad, lead, ch);
  }

  lemma LongerLine(line: Line, ch: char)
    requires ValidLine(line)
    ensures ch != CR ==> ValidLine(WithText(line, line.text + [ch]))
  {
    match line
    case Fold(blank, text) => AllSnoc(text, ch, TextChar);
    case Field(name, pad, lead, text) =>
      assert (text + [ch])[1..] == text[1..] + [ch];
      AllSnoc(text[1..], ch, TextChar);
  }

  lemma LineEndStep(z: Sizes, lines: seq<Line>, line: Line)
    requires ValidLine(line)
    ensures StepAgrees(z, Progress(lines, InLine(line)), CR)
  {
  }

  lemma LineStep(z: Sizes, lines: seq<Line>, line: Line, ch: char)
    requires Room(z) && ValidLine(line)
    ensures StepAgrees(z, Progress(lines, InLine(line)), ch)
  {
    if ch == CR {
      LineEndStep(z, lines, line);
    } else {
      LongerLine(line, ch);
      LongerReading(z, Read(z, lines), line, ch);
    }
  }

  /** A longer line reads as a longer value. */
  lemma LongerReading(z: Sizes, r: Reading, line: Line, ch: char)
    requires Room(z)
    ensures var now, next := ReadLine(z, r, line), ReadLine(z, r, WithText(line, line.text + [ch]));
            && next.name == now.name && next.sets == now.sets
            && Kept(next.value, z.value) == AddCh(Kept(now.value, z.value), z.value, ch)
  {
    Assoc(r.value, line.text, [ch]);
    KeptSnoc(ReadLine(z, r, line).value, z.value, ch);
  }

  lemma CrStep(z: Sizes, lines: seq<Line>, line: Line, ch: char)
    requires ValidLine(line)
    ensures StepAgrees(z, Progress(lines, AtCr(line)), ch)
  {
    ReadSnoc(z, lines, line);
  }

  lemma DoneStep(z: Sizes, lines: seq<Line>, ch: char)
    ensures StepAgrees(z, Progress(lines, AtEnd), ch)
  {
  }

  /** One byte: the parser wants more exactly when the grammar goes on, and then it goes to the state
      described by the longer text. */
  lemma EveryStep(z: Sizes, p: Progress, ch: char)
    requires Room(z) && Valid(p)
    ensures StepAgrees(z, p, ch)
  {
    match p.part
    case AtStart => StartStep(z, p.lines, ch);
    case InName(name) => NameStep(z, p.lines, name, ch);
    case AfterName(name, pad) => AfterNameStep(z, p.lines, name, pad, ch);
    case AtColon(name, pad) => ColonStep(z, p.lines, name, pad, ch);
    case InLead(name, pad, lead) => LeadStep(z, p.lines, name, pad, lead, ch);
    case InLine(line) => LineStep(z, p.lines, line, ch);
    case AtCr(line) => CrStep(z, p.lines, line, ch);
    case AtEnd => DoneStep(z, p.lines, ch);
  }

  // ---------- One byte back

  function PrevPart(part: Part): Part
    requires ValidPart(part) && !part.AtStart?
  {
    match part
    case InName(name) => if |name| == 1 then AtStart else InName(name[..|name| - 1])
    case AfterName(name, pad) => if |pad| == 1 then InName(name) else AfterName(name, pad[..|pad| - 1])
    case AtColon(name, pad) => if pad == [] then InName(name) else AfterName(name, pad)
    case InLead(name, pad, lead) =>
      if |lead| == 1 then AtColon(name, pad) else InLead(name, pad, lead[..|lead| - 1])
    case InLine(line) =>
      (match line
       case Fold(_, text) => if text == [] then AtStart else InLine(WithText(line, text[..|text| - 1]))
       case Field(name, pad, lead, text) =>
         if |text| > 1 then InLine(WithText(line, text[..|text| - 1]))
         else if lead == [] then AtColon(name, pad)
         else InLead(name, pad, lead))
    case AtCr(line) => InLine(line)
    case AtEnd => AtStart
  }

  function LastOfPart(part: Part): char
    requires ValidPart(part) && !part.AtStart?
  {
    match part
    case InName(name) => name[|name| - 1]
    case AfterName(_, pad) => pad[|pad| - 1]
    case AtColon(_, _) => ':'
    case InLead(_, _, lead) => lead[|lead| - 1]
    case InLine(line) =>
      if line.Fold? && line.text == [] then line.blank else line.text[|line.text| - 1]
    case AtCr(_) => CR
    case AtEnd => CR
  }

  /** The progress before the last byte of `p`. */
  function Prev(p: Progress): Progress
    requires Valid(p) && p != Progress([], AtStart)
  {
    if p.part.AtStart? then Progress(p.lines[..|p.lines| - 1], AtCr(p.lines[|p.lines| - 1]))
    else Progress(p.lines, PrevPart(p.part))
  }

  function Last(p: Progress): char
    requires Valid(p) && p != Progress([], AtStart)
  {
    if p.part.AtStart? then LF else LastOfPart(p.part)
  }

  /** Dropping the last of at least two bytes, the first being special. */
  lemma DropLastOfTail(s: seq<char>, f: char -> bool)
    requires |s| > 1 && All(s[1..], f)
    ensures s == s[..|s| - 1] + [s[|s| - 1]] && All(s[..|s| - 1][1..], f) && f(s[|s| - 1])
  {
    DropLast(s[1..], f);
    assert s[..|s| - 1][1..] == s[1..][..|s| - 2];
    assert s[1..][|s| - 2] == s[|s| - 1];
  }

  ghost predicate GoesBack(lines: seq<Line>, part: Part)
    requires ValidPart(part) && !part.AtStart?
  {
    && ValidPart(PrevPart(part))
    && Legal(Progress(lines, PrevPart(part)), LastOfPart(part))
    && Next(Progress(lines, PrevPart(part)), LastOfPart(part)) == Progress(lines, part)
  }

  lemma NameGoesBack(lines: seq<Line>, name: seq<char>)
    requires IsName(name)
    ensures GoesBack(lines, InName(name))
  {
    if |name| > 1 {
      DropLastOfTail(name, NameChar);
    }
  }

  lemma BlanksGoBack(lines: seq<Line>, name: seq<char>, pad: seq<char>)
    requires ValidPart(AfterName(name, pad))
    ensures GoesBack(lines, AfterName(name, pad))
  {
    DropLast(pad, IsBlank);
  }

  lemma LeadGoesBack(lines: seq<Line>, name: seq<char>, pad: seq<char>, lead: seq<char>)
    requires ValidPart(InLead(name, pad, lead))
    ensures GoesBack(lines, InLead(name, pad, lead))
  {
    DropLast(lead, IsBlank);
  }

  lemma LineGoesBack(lines: seq<Line>, line: Line)
    requires ValidLine(line)
    ensures GoesBack(lines, InLine(line))
  {
    match line
    case Fold(blank, text) =>
      if text != [] {
        DropLast(text, TextChar);
      }
    case Field(name, pad, lead, text) =>
      if |text| > 1 {
        DropLastOfTail(text, TextChar);
      }
  }

  lemma PrevIsLegal(p: Progress)
    requires Valid(p) && p != Progress([], AtStart)
    ensures Valid(Prev(p)) && Legal(Prev(p), Last(p))
    ensures Next(Prev(p), Last(p)) == p
  {
    match p.part
    case AtStart => assert p.lines == p.lines[..|p.lines| - 1] + [p.lines[|p.lines| - 1]];
    case InName(name) => NameGoesBack(p.lines, name);
    case AfterName(name, pad) => BlanksGoBack(p.lines, name, pad);
    case AtColon(name, pad) =>
    case InLead(name, pad, lead) => LeadGoesBack(p.lines, name, pad, lead);
    case InLine(line) => LineGoesBack(p.lines, line);
    case AtCr(line) =>
    case AtEnd =>
  }

  // ---------- Main results

  /** The text of every valid progress is accepted and leads to the state described. */
  lemma {:induction false} DescribedIsReached(z: Sizes, p: Progress)
    requires Room(z) && Valid(p)
    ensures Run(Stepper(z), INIT, Text(p)) == Result(Described(z, p), [], More)
    decreases |Text(p)|
  {
    if p == Progress([], AtStart) {
      assert Text(p) == [] && Described(z, p) == INIT;
    } else {
      var q, ch := Prev(p), Last(p);
      PrevIsLegal(p);
      NextText(q, ch);
      EveryStep(z, q, ch);
      DescribedIsReached(z, q);
      RunSplit(Stepper(z), INIT, Text(q), [ch]);
      assert Run(Stepper(z), Described(z, q), [ch]) == Run(Stepper(z), Described(z, p), []);
    }
  }

  /** What a completed block leaves behind. */
  function Parsed(z: Sizes, lines: seq<Line>): Hs {
    Hs(AtEndCr, true, Kept(Read(z, lines).name, z.name), Kept(Read(z, lines).value, z.value), BlockSets(z, lines))
  }

  /** A block is read, its fields are passed on in order, and exactly what follows its last LF is
      left. */
  lemma BlockIsParsed(z: Sizes, lines: seq<Line>, rest: seq<char>)
    requires Room(z) && ValidLines(lines)
    ensures Run(Stepper(z), INIT, BlockText(lines) + rest) == Result(Parsed(z, lines), rest, Completed)
  {
    var p := Progress(lines, AtEnd);
    DescribedIsReached(z, p);
    BlankLineText(lines, rest);
    RunSplit(Stepper(z), INIT, Text(p), [LF] + rest);
    assert ([LF] + rest)[1..] == rest;
  }

  lemma TextStep(p: Progress, input: seq<char>)
    requires Valid(p) && input != [] && Legal(p, input[0])
    ensures Valid(Next(p, input[0]))
    ensures Text(Next(p, input[0])) + input[1..] == Text(p) + input
  {
    NextText(p, input[0]);
    Shift(Text(p), Text(Next(p, input[0])), input);
  }

  /** A call goes on after a legal byte; otherwise it completes only at the LF of the blank line. */
  lemma RunStep(z: Sizes, p: Progress, input: seq<char>)
    requires Room(z) && Valid(p) && input != []
    ensures Legal(p, input[0]) ==>
              Run(Stepper(z), Described(z, p), input) == Run(Stepper(z), Described(z, Next(p, input[0])), input[1..])
    ensures !Legal(p, input[0]) && Run(Stepper(z), Described(z, p), input).outcome != Failed ==>
              p.part.AtEnd? && input[0] == LF
  {
    var hs := Described(z, p);
    EveryStep(z, p, input[0]);
    if !Legal(p, input[0]) {
      StopsAtEnd(z, hs, input);
    }
  }

  /** Only the LF of the blank line ends a call without failure before the input is used up. */
  lemma StopsAtEnd(z: Sizes, hs: Hs, input: seq<char>)
    requires input != [] && !Step(z, hs, input[0]).Go?
    ensures Run(Stepper(z), hs, input).outcome != Failed ==> hs.state == AtEndCr && input[0] == LF
  {
  }

  lemma {:induction false} CompletedFrom(z: Sizes, p: Progress, input: seq<char>)
    returns (lines: seq<Line>, rest: seq<char>)
    requires Room(z) && Valid(p)
    requires Run(Stepper(z), Described(z, p), input).outcome == Completed
    ensures ValidLines(lines) && Text(p) + input == BlockText(lines) + rest
    decreases |input|
  {
    RunStep(z, p, input);
    if Legal(p, input[0]) {
      TextStep(p, input);
      lines, rest := CompletedFrom(z, Next(p, input[0]), input[1..]);
    } else {
      lines, rest := p.lines, input[1..];
      assert input == [LF] + rest;
      BlankLineText(p.lines, rest);
    }
  }

  lemma BlankLineText(lines: seq<Line>, rest: seq<char>)
    ensures Text(Progress(lines, AtEnd)) + ([LF] + rest) == BlockText(lines) + rest
  {
  }

  /** Main result: the parser completes exactly on the inputs that start with a block. */
  lemma CompletesExactly(z: Sizes, input: seq<char>)
    requires Room(z)
    ensures Run(Stepper(z), INIT, input).outcome == Completed
            <==> exists lines: seq<Line>, rest: seq<char> :: ValidLines(lines) && input == BlockText(lines) + rest
  {
    if Run(Stepper(z), INIT, input).outcome == Completed {
      var start := Progress([], AtStart);
      assert Described(z, start) == INIT && Text(start) + input == input;
      var lines, rest := CompletedFrom(z, start, input);
    }
    if lines: seq<Line>, rest: seq<char> :| ValidLines(lines) && input == BlockText(lines) + rest {
      BlockIsParsed(z, lines, rest);
    }
  }

  // ---------- Any input

  /** The calls that `p` has made. */
  function SetsOf(z: Sizes, p: Progress): seq<EnvSet> {
    ReadingOf(z, p).sets
  }

  /** Only the LF of the blank line ends a call without failure, and a call that ends makes no more calls. */
  lemma IllegalByte(z: Sizes, p: Progress, input: seq<char>)
    requires Room(z) && Valid(p) && input != [] && !Legal(p, input[0])
    ensures var r := Run(Stepper(z), Described(z, p), input);
            && r.outcome == (if p.part.AtEnd? && input[0] == LF then Completed else Failed)
            && r.s.log == SetsOf(z, p) && r.rest == input[1..]
  {
    EveryStep(z, p, input[0]);
    StopKeepsLog(z, Described(z, p), input[0]);
  }

  lemma StopKeepsLog(z: Sizes, hs: Hs, ch: char)
    requires !Step(z, hs, ch).Go?
    ensures Step(z, hs, ch).s.log == hs.log
    ensures Step(z, hs, ch).Complete? <==> hs.state == AtEndCr && ch == LF
  {
  }

  lemma {:induction false} RunFrom(z: Sizes, p: Progress, input: seq<char>) returns (q: Progress, rest: seq<char>)
    requires Room(z) && Valid(p)
    ensures Valid(q) && Text(p) + input == Text(q) + rest && (rest != [] ==> !Legal(q, rest[0]))
    ensures Explains(z, Run(Stepper(z), Described(z, p), input), q, rest)
    decreases |input|
  {
    if input == [] {
      q, rest := p, input;
    } else if !Legal(p, input[0]) {
      IllegalByte(z, p, input);
      q, rest := p, input;
    } else {
      RunStep(z, p, input);
      TextStep(p, input);
      q, rest := RunFrom(z, Next(p, input[0]), input[1..]);
    }
  }

  /** What a call made of `Text(q) + rest`. */
  ghost predicate Explains(z: Sizes, r: Result<Hs>, q: Progress, rest: seq<char>) {
    && r.s.log == SetsOf(z, q)
    && if rest == [] then r.outcome == More && r.rest == []
       else r.rest == rest[1..] && r.outcome == if q.part.AtEnd? && rest[0] == LF then Completed else Failed
  }

  /** Main result: every input splits into the longest beginning of a block and what cannot follow it; the
      calls made are those of that beginning, and one byte of the rest has been used up. */
  lemma EveryRunIsDescribed(z: Sizes, input: seq<char>) returns (q: Progress, rest: seq<char>)
    requires Room(z)
    ensures Valid(q) && input == Text(q) + rest && (rest != [] ==> !Legal(q, rest[0]))
    ensures Explains(z, Run(Stepper(z), INIT, input), q, rest)
  {
    var start := Progress([], AtStart);
    assert Described(z, start) == INIT && Text(start) + input == input;
    q, rest := RunFrom(z, start, input);
  }
}
