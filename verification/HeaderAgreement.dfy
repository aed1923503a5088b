/** The two header parsers against each other: httpparser.c reports each field when its line ends,
    headers_parse of victory.c holds it back until the next line begins. */
module HeaderAgreement {
  import opened Bytes
  import H = HttpParsing
  import HG = HttpGrammar
  import L = LineStreams
  import V = Headers
  import VG = HeadersGrammar

  /** The buffers of ht_headers. */
  const SIZES: V.Sizes := V.Sizes(80, 2048)

  /** A field that both read alike. */
  datatype Field = Field(name: seq<char>, value: seq<char>)

  predicate Canonical(f: Field) {
    && f.name != [] && All(f.name, VG.NameChar) && |f.name| < SIZES.name
    && f.value != [] && !IsSpace(f.value[0]) && All(f.value, HG.ValueChar) && |f.value| < SIZES.value
  }

  predicate AllCanonical(fs: seq<Field>) {
    forall i :: 0 <= i < |fs| ==> Canonical(fs[i])
  }

  function PrintField(f: Field): seq<char> {
    f.name + [':', SP] + f.value + [CR, LF]
  }

  function PrintFields(fs: seq<Field>): seq<char> {
    if fs == [] then [] else PrintFields(fs[..|fs| - 1]) + PrintField(fs[|fs| - 1])
  }

  function Block(fs: seq<Field>): seq<char> {
    PrintFields(fs) + [CR, LF]
  }

  // ---------- The same block for httpparser.c

  function HttpFields(fs: seq<Field>): seq<HG.Field> {
    if fs == [] then []
    else HttpFields(fs[..|fs| - 1]) + [HG.Field(fs[|fs| - 1].name, [SP], fs[|fs| - 1].value)]
  }

  function HeaderEvents(sets: seq<V.EnvSet>): seq<H.Event> {
    if sets == [] then []
    else
      HeaderEvents(sets[..|sets| - 1]) + [H.Header(sets[|sets| - 1].name, sets[|sets| - 1].value)]
  }

  /** The calls and the reports that the fields should give. */
  function Expected(fs: seq<Field>): seq<V.EnvSet> {
    if fs == [] then []
    else Expected(fs[..|fs| - 1]) + [V.EnvSet(CStr(fs[|fs| - 1].name), CStr(fs[|fs| - 1].value))]
  }

  lemma HttpField(f: Field)
    requires Canonical(f)
    ensures var g := HG.Field(f.name, [SP], f.value);
            && HG.ValidField(g) && HG.FieldText(g) == PrintField(f)
            && HG.FieldEvents(g) == [H.Header(CStr(f.name), CStr(f.value))]
  {
    forall i | 0 <= i < |f.name| ensures HG.NameChar(f.name[i]) {
      assert VG.NameChar(f.name[i]);
    }
    assert HG.GapEvents(f.name, [SP]) == HG.GapEvents(f.name, [SP][..0]) + [] == [];
    assert f.name + [':'] + [SP] == f.name + [':', SP];
  }

  lemma {:induction false} HttpFieldsAgree(fs: seq<Field>)
    requires AllCanonical(fs)
    ensures forall g :: g in HttpFields(fs) ==> HG.ValidField(g)
    ensures HG.FieldsText(HttpFields(fs)) == PrintFields(fs)
    ensures HG.FieldsEvents(HttpFields(fs)) == HeaderEvents(Expected(fs))
  {
    if fs != [] {
      var init, f := fs[..|fs| - 1], fs[|fs| - 1];
      HttpFieldsAgree(init);
      HttpField(f);
      var gs, g := HttpFields(init), HG.Field(f.name, [SP], f.value);
      assert (gs + [g])[..|gs|] == gs;
      var e := Expected(init);
      var s := V.EnvSet(CStr(f.name), CStr(f.value));
      assert (e + [s])[..|e|] == e;
    }
  }

  // ---------- The same block for headers_parse

  function FoldFree(fs: seq<Field>): seq<VG.Line> {
    if fs == [] then []
    else FoldFree(fs[..|fs| - 1]) + [VG.Field(fs[|fs| - 1].name, [], [SP], fs[|fs| - 1].value)]
  }

  lemma VictoryLine(f: Field)
    requires Canonical(f)
    ensures var line := VG.Field(f.name, [], [SP], f.value);
            VG.ValidLine(line) && VG.LineText(line) == PrintField(f)
  {
    forall i | 0 <= i < |f.name[1..]| ensures VG.NameChar(f.name[1..][i]) {
      assert VG.NameChar(f.name[i + 1]);
    }
    assert VG.NameChar(f.name[0]);
    forall i | 0 <= i < |f.value[1..]| ensures VG.TextChar(f.value[1..][i]) {
      assert HG.ValueChar(f.value[i + 1]);
    }
    assert f.name + [] + [':'] + [SP] == f.name + [':', SP];
  }

  /** What reading one more canonical field adds. */
  lemma VictoryReads(r: VG.Reading, f: Field)
    requires Canonical(f)
    ensures var r' := VG.ReadLine(SIZES, r, VG.Field(f.name, [], [SP], f.value));
            && r'.name == f.name && r'.value == f.value
            && r'.sets + VG.PassedOn(SIZES, r') ==
               (r.sets + VG.PassedOn(SIZES, r)) + [V.EnvSet(CStr(f.name), CStr(f.value))]
  {
  }

  lemma {:induction false} VictoryText(fs: seq<Field>)
    requires AllCanonical(fs)
    ensures VG.ValidLines(FoldFree(fs)) && VG.LinesText(FoldFree(fs)) == PrintFields(fs)
  {
    if fs != [] {
      var init, f := fs[..|fs| - 1], fs[|fs| - 1];
      VictoryText(init);
      VictoryLine(f);
      VG.LinesSnoc(FoldFree(init), VG.Field(f.name, [], [SP], f.value));
    }
  }

  lemma {:induction false} VictorySets(fs: seq<Field>)
    requires AllCanonical(fs)
    ensures VG.BlockSets(SIZES, FoldFree(fs)) == Expected(fs)
  {
    if fs != [] {
      var init, f := fs[..|fs| - 1], fs[|fs| - 1];
      VictorySets(init);
      VG.ReadSnoc(SIZES, FoldFree(init), VG.Field(f.name, [], [SP], f.value));
      VictoryReads(VG.Read(SIZES, FoldFree(init)), f);
    }
  }

  /** Main result: on a block of canonical fields the deferred calls of env_set are the header reports
      of httpparser.c, one for one and in order, whatever surrounds the block and however either
      parser is fed. */
  lemma HeaderParsersAgree(line: HG.Line, fs: seq<Field>, body: seq<char>, rest: seq<char>,
                           chunks: seq<seq<char>>)
    requires HG.ValidLine(line) && AllCanonical(fs)
    requires Flatten(chunks) == Block(fs) + rest
    ensures var v := L.Feed(V.Stepper(SIZES), V.INIT, chunks);
            var h := H.Run(H.INIT, HG.LineText(line) + [CR, LF] + Block(fs) + body);
            && v.outcome == L.Completed && v.rest == rest
            && h.ok && h.hp.state == H.Data
            && h.hp.log == HG.LineEvents(line) + HeaderEvents(v.s.log) + [H.HeaderDone]
                           + if body == [] then [] else [H.Body(body)]
  {
    VictoryText(fs);
    VictorySets(fs);
    VG.BlockIsParsed(SIZES, FoldFree(fs), rest);
    L.ChunkIndependence(V.Stepper(SIZES), V.INIT, chunks);
    HttpFieldsAgree(fs);
    var head := HG.Head(line, HttpFields(fs));
    HG.HeadIsParsed(head, body);
    HeadTextOfBlock(head, fs);
  }

  lemma HeadTextOfBlock(head: HG.Head, fs: seq<Field>)
    requires HG.FieldsText(head.fields) == PrintFields(fs)
    ensures HG.HeadText(head) == HG.LineText(head.line) + [CR, LF] + Block(fs)
  {
  }
}
