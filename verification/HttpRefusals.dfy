/** What the grammar of requests leaves out: bytes that end a call, header fields without a value, pairs of
    strings that do not fit, and request lines without a version, which are taken but not reported. */
module HttpRefusals {
  import opened Bytes
  import opened HttpParsing
  import opened HttpGrammar

  // ---------- Header fields without a value

  /** A byte that no request head goes on with ends the call, whatever follows it, and nothing more is
      reported. */
  lemma RefusedAt(p: Progress, ch: char, rest: seq<char>)
    requires Valid(p) && !p.AtData? && !Legal(p, ch)
    ensures var r := Run(INIT, Text(p) + ([ch] + rest)); !r.ok && r.hp.log == Events(p)
  {
    var input := [ch] + rest;
    DescribedIsReached(p);
    RunAppend(INIT, Text(p), input);
    RunStep(p, input);
  }

  lemma RefusedBy(p: Progress, tail: seq<char>)
    requires Valid(p) && !p.AtData? && tail != [] && !Legal(p, tail[0])
    ensures !Run(INIT, Text(p) + tail).ok
  {
    RefusedAt(p, tail[0], tail[1..]);
    assert tail == [tail[0]] + tail[1..];
  }

  /** A name that fills the token takes no further byte. */
  lemma FullNameIsRefused(h: Head, name: seq<char>, rest: seq<char>)
    requires ValidHead(h) && IsName(name) && |name| == TOK_MAX && rest != []
    ensures !Run(INIT, TopText(h) + (name + rest)).ok
  {
    var p := InName(h, name);
    StepOkIffLegal(p, rest[0]);
    StepOkIffAccepts(Described(p), rest[0]);
    RefusedAt(p, rest[0], rest[1..]);
    assert rest == [rest[0]] + rest[1..];
    Assoc(TopText(h), name, rest);
  }

  lemma NameTooLong(h: Head, name: seq<char>, rest: seq<char>)
    requires ValidHead(h) && IsName(name) && TOK_MAX <= |name| && rest != []
    ensures !Run(INIT, TopText(h) + (name + rest)).ok
  {
    AllPrefix(name[..TOK_MAX], name, NameChar);
    FullNameIsRefused(h, name[..TOK_MAX], name[TOK_MAX..] + rest);
    assert name == name[..TOK_MAX] + name[TOK_MAX..];
    Assoc(name[..TOK_MAX], name[TOK_MAX..], rest);
  }

  /** Main result: a header line that ends before a value has begun is refused, although section 4.2 of
      RFC 2616 allows it: after any valid lines, for every name and whatever white space and CRs stand
      behind the colon. */
  lemma EmptyValueIsRefused(h: Head, name: seq<char>, gap: seq<char>, rest: seq<char>)
    requires ValidHead(h) && IsName(name) && IsGap(gap)
    ensures !Run(INIT, TopText(h) + (name + ([':'] + (gap + ([LF] + rest))))).ok
  {
    if |name| < TOK_MAX {
      RefusedAt(InGap(h, name, gap), LF, rest);
      assert name + ([':'] + (gap + ([LF] + rest))) == (name + [':'] + gap) + ([LF] + rest);
      Assoc(TopText(h), name + [':'] + gap, [LF] + rest);
    } else {
      NameTooLong(h, name, [':'] + (gap + ([LF] + rest)));
    }
  }

  // ---------- Request lines without a version

  /** Main result: the reports for a head include a method exactly if its line has a version; a CR right
      after the URI ends the line with none, and the head is taken all the same. */
  lemma MethodNeedsVersion(h: Head, rest: seq<char>)
    requires ValidHead(h)
    ensures var r := Run(INIT, HeadText(h) + rest);
            && r.ok && r.hp.state == Data
            && ((exists e :: e in r.hp.log && e.Method?) <==> h.line.Full?)
  {
    HeadIsParsed(h, rest);
    FieldsHaveNoMethod(h.fields);
    var log := Run(INIT, HeadText(h) + rest).hp.log;
    var tail := FieldsEvents(h.fields) + [HeaderDone] + if rest == [] then [] else [Body(rest)];
    assert log == LineEvents(h.line) + tail;
    assert forall e :: e in tail ==> !e.Method?;
    if h.line.Full? {
      assert log[0] == Method(CStr(h.line.verb), CStr(h.line.uri));
    }
  }

  lemma {:induction false} FieldsHaveNoMethod(fs: seq<Field>)
    ensures forall e :: e in FieldsEvents(fs) ==> !e.Method?
  {
    if fs != [] {
      FieldsHaveNoMethod(fs[..|fs| - 1]);
      GapHasNoMethod(fs[|fs| - 1].name, fs[|fs| - 1].gap);
    }
  }

  lemma {:induction false} GapHasNoMethod(name: seq<char>, gap: seq<char>)
    ensures forall e :: e in GapEvents(name, gap) ==> !e.Method?
  {
    if gap != [] {
      GapHasNoMethod(name, gap[..|gap| - 1]);
    }
  }

  // ---------- The size of the token

  /** A full token takes no byte of a value. */
  lemma FullTokenTakesNothing(p: Progress, ch: char)
    requires p.InGap? || p.InValue?
    requires Valid(p) && |TokOf(p)| == TOK_MAX && (p.InGap? ==> !IsSpace(ch))
    ensures !Legal(p, ch)
  {
    StepOkIffLegal(p, ch);
    StepOkIffAccepts(Described(p), ch);
  }

  lemma FullTokenIsRefused(p: Progress, tail: seq<char>)
    requires p.InGap? || p.InValue?
    requires Valid(p) && |TokOf(p)| == TOK_MAX && tail != [] && (p.InGap? ==> !IsSpace(tail[0]))
    ensures !Run(INIT, Text(p) + tail).ok
  {
    FullTokenTakesNothing(p, tail[0]);
    RefusedBy(p, tail);
  }

  lemma ValueTooLong(h: Head, name: seq<char>, gap: seq<char>, value: seq<char>, rest: seq<char>)
    requires ValidHead(h) && IsName(name) && IsGap(gap) && IsValue(value)
    requires |name| < TOK_MAX <= |name| + 1 + |value| && rest != []
    ensures !Run(INIT, TopText(h) + (name + [':'] + gap) + (value + rest)).ok
  {
    var k := TOK_MAX - |name| - 1;
    if k == 0 {
      assert (value + rest)[0] == value[0];
      FullTokenIsRefused(InGap(h, name, gap), value + rest);
    } else {
      AllPrefix(value[..k], value, ValueChar);
      assert value[..k][0] == value[0];
      FullTokenIsRefused(InValue(h, name, gap, value[..k]), value[k..] + rest);
      ValueAround(h, name, gap, value, rest, k);
    }
  }

  lemma ValueAround(h: Head, name: seq<char>, gap: seq<char>, value: seq<char>, rest: seq<char>, k: nat)
    requires k <= |value|
    ensures TopText(h) + (name + [':'] + gap) + (value + rest) ==
            Text(InValue(h, name, gap, value[..k])) + (value[k..] + rest)
  {
    var front, line := TopText(h), name + [':'] + gap;
    SplitAt(value, k);
    Assoc(value[..k], value[k..], rest);
    Assoc(front + line, value[..k], value[k..] + rest);
    Assoc(front, line, value[..k]);
  }

  /** The text of one more field. */
  lemma FieldBehind(h: Head, f: Field)
    ensures TopText(h) + (f.name + [':'] + f.gap) + (f.value + [CR, LF]) == TopText(h) + FieldText(f)
    ensures FieldText(f) == f.name + ([':'] + f.gap + (f.value + [CR, LF]))
  {
    var line := f.name + [':'] + f.gap;
    Assoc(line, f.value, [CR, LF]);
    Assoc(TopText(h), line, f.value + [CR, LF]);
    Assoc(f.name, [':'], f.gap);
    Assoc(f.name, [':'] + f.gap, f.value + [CR, LF]);
  }

  /** Main result: behind any valid lines a header field is taken if and only if its name and its value
      fit in 4096 bytes, each with its NUL. */
  lemma FieldFitsExactly(h: Head, f: Field)
    requires ValidHead(h) && IsName(f.name) && IsGap(f.gap) && IsValue(f.value)
    ensures Run(INIT, TopText(h) + FieldText(f)).ok <==> |f.name| + |f.value| + 2 <= 4096
  {
    FieldBehind(h, f);
    if |f.name| + |f.value| + 2 <= TOK_MAX {
      AnotherField(h, f);
      DescribedIsReached(AtName(Head(h.line, h.fields + [f])));
    } else if TOK_MAX <= |f.name| {
      NameTooLong(h, f.name, [':'] + f.gap + (f.value + [CR, LF]));
    } else {
      ValueTooLong(h, f.name, f.gap, f.value, [CR, LF]);
    }
  }
}
