/** The language of csv.c, and what it reports, stated without reference to the parser.

    Between two separators stands a slot: ignored white space, quoted strings that are lost because
    white space follows them, and then at most one field, quoted or bare.  A slot without a field
    reports nothing but still counts as a column. */
module Csv1Grammar {
  import opened Bytes
  import opened CsvReports
  import opened Csv1

  datatype Drop = Blank(c: char) | Lost(text: seq<char>, c: char)

  datatype Item = Nothing | InQuotes(text: seq<char>) | Plain(text: seq<char>)

  datatype Slot = Slot(drops: seq<Drop>, item: Item)

  type Row = seq<Slot>

  // ---------- Text

  function QuotedText(s: seq<char>): seq<char> {
    [QUOTE] + Doubled(s) + [QUOTE]
  }

  function DropText(d: Drop): seq<char> {
    match d
    case Blank(c) => [c]
    case Lost(text, c) => QuotedText(text) + [c]
  }

  function DropsText(ds: seq<Drop>): seq<char> {
    if ds == [] then [] else DropsText(ds[..|ds| - 1]) + DropText(ds[|ds| - 1])
  }

  function ItemText(item: Item): seq<char> {
    match item
    case Nothing => []
    case InQuotes(text) => QuotedText(text)
    case Plain(text) => text
  }

  function SlotText(slot: Slot): seq<char> {
    DropsText(slot.drops) + ItemText(slot.item)
  }

  /** Slots that are followed by a comma. */
  function SlotsText(slots: seq<Slot>): seq<char> {
    if slots == [] then [] else SlotsText(slots[..|slots| - 1]) + (SlotText(slots[|slots| - 1]) + [','])
  }

  function RowText(row: Row): seq<char>
    requires row != []
  {
    SlotsText(row[..|row| - 1]) + SlotText(row[|row| - 1]) + [LF]
  }

  function DocText(rows: seq<Row>): seq<char>
    requires forall i :: 0 <= i < |rows| ==> rows[i] != []
  {
    if rows == [] then [] else DocText(rows[..|rows| - 1]) + RowText(rows[|rows| - 1])
  }

  // ---------- Meaning

  /** CRs in a bare field are ignored. */
  function WithoutCr(s: seq<char>): seq<char> {
    if s == [] then []
    else WithoutCr(s[..|s| - 1]) + if s[|s| - 1] == CR then [] else [s[|s| - 1]]
  }

  function ItemValue(item: Item): seq<char> {
    match item
    case Nothing => []
    case InQuotes(text) => text
    case Plain(text) => WithoutCr(text)
  }

  function SlotEvents(row: nat, col: nat, slot: Slot): seq<Event> {
    if slot.item.Nothing? then [] else [Field(Num(row), Num(col), ItemValue(slot.item))]
  }

  function SlotsEvents(row: nat, slots: seq<Slot>): seq<Event> {
    if slots == [] then []
    else SlotsEvents(row, slots[..|slots| - 1]) + SlotEvents(row, |slots| - 1, slots[|slots| - 1])
  }

  function DocEvents(rows: seq<Row>): seq<Event> {
    if rows == [] then []
    else DocEvents(rows[..|rows| - 1]) + SlotsEvents(|rows| - 1, rows[|rows| - 1]) + [RowEnd(Num(|rows| - 1))]
  }

  // ---------- Well-formedness

  predicate DropChar(c: char) {
    IsSpace(c) && c != LF
  }

  predicate PlainChar(c: char) {
    c != ',' && c != LF
  }

  /** The buffer of csv.h has 1024 bytes, one of them for the NUL. */
  predicate Fits(s: seq<char>) {
    |s| + 1 <= 1024
  }

  predicate ValidDrop(d: Drop) {
    DropChar(d.c) && (d.Lost? ==> Fits(d.text))
  }

  predicate ValidDrops(ds: seq<Drop>) {
    forall i :: 0 <= i < |ds| ==> ValidDrop(ds[i])
  }

  predicate IsPlain(text: seq<char>) {
    text != [] && text[0] != QUOTE && !IsSpace(text[0]) && All(text, PlainChar) && Fits(WithoutCr(text))
  }

  predicate ValidItem(item: Item) {
    match item
    case Nothing => true
    case InQuotes(text) => Fits(text)
    case Plain(text) => IsPlain(text)
  }

  predicate ValidSlot(slot: Slot) {
    ValidDrops(slot.drops) && ValidItem(slot.item)
  }

  predicate ValidSlots(slots: seq<Slot>) {
    forall i :: 0 <= i < |slots| ==> ValidSlot(slots[i])
  }

  predicate ValidRows(rows: seq<Row>) {
    forall i :: 0 <= i < |rows| ==> rows[i] != [] && ValidSlots(rows[i])
  }

  // ---------- Unfinished documents

  /** An unfinished slot: one that may end here, or one inside its quotes. */
  datatype Part = Ready(slot: Slot) | Quoting(drops: seq<Drop>, text: seq<char>)

  datatype Progress = Progress(rows: seq<Row>, slots: seq<Slot>, part: Part)

  predicate ValidPart(part: Part) {
    match part
    case Ready(slot) => ValidSlot(slot)
    case Quoting(drops, text) => ValidDrops(drops) && Fits(text)
  }

  predicate Valid(p: Progress) {
    ValidRows(p.rows) && ValidSlots(p.slots) && ValidPart(p.part)
  }

  function PartText(part: Part): seq<char> {
    match part
    case Ready(slot) => SlotText(slot)
    case Quoting(drops, text) => DropsText(drops) + ([QUOTE] + Doubled(text))
  }

  function Text(p: Progress): seq<char>
    requires forall i :: 0 <= i < |p.rows| ==> p.rows[i] != []
  {
    DocText(p.rows) + SlotsText(p.slots) + PartText(p.part)
  }

  function PartState(part: Part): State {
    match part
    case Ready(slot) =>
      (match slot.item
       case Nothing => S0
       case InQuotes(_) => QuoteCheck
       case Plain(_) => InField)
    case Quoting(_, _) => Quoted
  }

  function PartValue(part: Part): seq<char> {
    match part
    case Ready(slot) => ItemValue(slot.item)
    case Quoting(_, text) => text
  }

  function Events(p: Progress): seq<Event> {
    DocEvents(p.rows) + SlotsEvents(|p.rows|, p.slots)
  }

  /** The state of the parser after reading `Text(p)`.  Where no field has begun the buffer holds
      what was left of an earlier one, which nothing reads. */
  predicate Describes(p: Progress, q: Parser) {
    && q.state == PartState(p.part)
    && q.row == Num(|p.rows|) && q.col == Num(|p.slots|)
    && q.log == Events(p)
    && (q.state != S0 ==> q.buf == PartValue(p.part))
  }

  // ---------- One byte forward

  function NextPart(part: Part, ch: char): Part {
    match part
    case Ready(slot) =>
      (match slot.item
       case Nothing =>
         if ch == QUOTE then Quoting(slot.drops, [])
         else if IsSpace(ch) then Ready(Slot(slot.drops + [Blank(ch)], Nothing))
         else Ready(Slot(slot.drops, Plain([ch])))
       case InQuotes(text) =>
         if ch == QUOTE then Quoting(slot.drops, text + [QUOTE])
         else Ready(Slot(slot.drops + [Lost(text, ch)], Nothing))
       case Plain(text) => Ready(Slot(slot.drops, Plain(text + [ch]))))
    case Quoting(drops, text) =>
      if ch == QUOTE then Ready(Slot(drops, InQuotes(text))) else Quoting(drops, text + [ch])
  }

  const EMPTY_SLOT: Slot := Slot([], Nothing)

  function Next(p: Progress, ch: char): Progress {
    if p.part.Ready? && ch == LF then Progress(p.rows + [p.slots + [p.part.slot]], [], Ready(EMPTY_SLOT))
    else if p.part.Ready? && ch == ',' then Progress(p.rows, p.slots + [p.part.slot], Ready(EMPTY_SLOT))
    else Progress(p.rows, p.slots, NextPart(p.part, ch))
  }

  predicate Legal(p: Progress, ch: char) {
    (p.part.Ready? && (ch == LF || ch == ',')) || ValidPart(NextPart(p.part, ch))
  }

  lemma WithoutCrSnoc(s: seq<char>, c: char)
    ensures WithoutCr(s + [c]) == WithoutCr(s) + if c == CR then [] else [c]
  {
    assert (s + [c])[..|s|] == s;
  }

  lemma DropsSnoc(ds: seq<Drop>, d: Drop)
    ensures DropsText(ds + [d]) == DropsText(ds) + DropText(d)
  {
    assert (ds + [d])[..|ds|] == ds;
  }

  lemma ValidDropsSnoc(ds: seq<Drop>, d: Drop)
    ensures ValidDrops(ds + [d]) <==> ValidDrops(ds) && ValidDrop(d)
  {
    assert (ds + [d])[|ds|] == d;
    if ValidDrops(ds + [d]) {
      forall i | 0 <= i < |ds| ensures ValidDrop(ds[i]) {
        assert (ds + [d])[i] == ds[i];
      }
    }
  }

  lemma SlotsSnoc(slots: seq<Slot>, slot: Slot, row: nat)
    ensures SlotsText(slots + [slot]) == SlotsText(slots) + (SlotText(slot) + [','])
    ensures SlotsEvents(row, slots + [slot]) == SlotsEvents(row, slots) + SlotEvents(row, |slots|, slot)
  {
    assert (slots + [slot])[..|slots|] == slots;
  }

  lemma RowSnoc(slots: seq<Slot>, slot: Slot)
    ensures RowText(slots + [slot]) == SlotsText(slots) + SlotText(slot) + [LF]
  {
    assert (slots + [slot])[..|slots|] == slots;
  }

  lemma RowsSnoc(rows: seq<Row>, row: Row)
    requires row != [] && forall i :: 0 <= i < |rows| ==> rows[i] != []
    ensures DocText(rows + [row]) == DocText(rows) + RowText(row)
    ensures DocEvents(rows + [row]) == DocEvents(rows) + SlotsEvents(|rows|, row) + [RowEnd(Num(|rows|))]
  {
    assert (rows + [row])[..|rows|] == rows;
  }

  lemma NothingText(drops: seq<Drop>, ch: char)
    ensures PartText(NextPart(Ready(Slot(drops, Nothing)), ch)) == SlotText(Slot(drops, Nothing)) + [ch]
  {
    var d := DropsText(drops);
    assert d + [] == d;
    if ch == QUOTE {
      assert [QUOTE] + Doubled([]) == [QUOTE];
    } else if IsSpace(ch) {
      DropsSnoc(drops, Blank(ch));
      assert d + [ch] + [] == d + [ch];
    }
  }

  lemma InQuotesText(drops: seq<Drop>, text: seq<char>, ch: char)
    ensures PartText(NextPart(Ready(Slot(drops, InQuotes(text))), ch)) == SlotText(Slot(drops, InQuotes(text))) + [ch]
  {
    var d := DropsText(drops);
    Assoc(d, QuotedText(text), [ch]);
    if ch == QUOTE {
      DoubledSnoc(text, QUOTE);
      assert [QUOTE] + (Doubled(text) + [QUOTE, QUOTE]) == QuotedText(text) + [QUOTE];
    } else {
      DropsSnoc(drops, Lost(text, ch));
      assert (d + QuotedText(text) + [ch]) + [] == d + QuotedText(text) + [ch];
    }
  }

  lemma ReadyText(slot: Slot, ch: char)
    requires ch != LF && ch != ','
    ensures PartText(NextPart(Ready(slot), ch)) == SlotText(slot) + [ch]
  {
    match slot.item
    case Nothing => NothingText(slot.drops, ch);
    case InQuotes(text) => InQuotesText(slot.drops, text, ch);
    case Plain(text) => Assoc(DropsText(slot.drops), text, [ch]);
  }

  lemma QuotingText(drops: seq<Drop>, text: seq<char>, ch: char)
    ensures PartText(NextPart(Quoting(drops, text), ch)) == PartText(Quoting(drops, text)) + [ch]
  {
    var d := DropsText(drops);
    DoubledSnoc(text, ch);
    Assoc([QUOTE], Doubled(text), [ch]);
    Assoc(d, [QUOTE] + Doubled(text), [ch]);
  }

  /** Nothing has been read of the next field. */
  lemma FreshText(rows: seq<Row>, slots: seq<Slot>)
    requires forall i :: 0 <= i < |rows| ==> rows[i] != []
    ensures Text(Progress(rows, slots, Ready(EMPTY_SLOT))) == DocText(rows) + SlotsText(slots)
    ensures Text(Progress(rows, [], Ready(EMPTY_SLOT))) == DocText(rows)
  {
    assert PartText(Ready(EMPTY_SLOT)) == [] && SlotsText([]) == [];
  }

  lemma LfKeepsValid(p: Progress)
    requires Valid(p) && p.part.Ready?
    ensures Valid(Next(p, LF))
  {
  }

  lemma LfText(p: Progress)
    requires p.part.Ready? && forall i :: 0 <= i < |p.rows| ==> p.rows[i] != []
    ensures forall i :: 0 <= i < |Next(p, LF).rows| ==> Next(p, LF).rows[i] != []
    ensures Text(Next(p, LF)) == Text(p) + [LF]
  {
    var row := p.slots + [p.part.slot];
    var doc, front, last := DocText(p.rows), SlotsText(p.slots), SlotText(p.part.slot);
    assert Text(Next(p, LF)) == doc + (front + last + [LF]) by {
      RowSnoc(p.slots, p.part.slot);
      RowsSnoc(p.rows, row);
      FreshText(p.rows + [row], []);
    }
    assert Text(p) == doc + front + last;
    Assoc4(doc, front, last, [LF]);
  }

  lemma CommaText(p: Progress)
    requires Valid(p) && p.part.Ready?
    ensures Valid(Next(p, ','))
    ensures Text(Next(p, ',')) == Text(p) + [',']
  {
    var slots, slot := p.slots, p.part.slot;
    SlotsSnoc(slots, slot, 0);
    FreshText(p.rows, slots + [slot]);
    Assoc4(DocText(p.rows), SlotsText(slots), SlotText(slot), [',']);
  }

  lemma NextText(p: Progress, ch: char)
    requires Valid(p) && Legal(p, ch)
    ensures Valid(Next(p, ch))
    ensures Text(Next(p, ch)) == Text(p) + [ch]
  {
    if p.part.Ready? && ch == LF {
      LfText(p);
      LfKeepsValid(p);
    } else if p.part.Ready? && ch == ',' {
      CommaText(p);
    } else {
      match p.part {
        case Ready(slot) => ReadyText(slot, ch);
        case Quoting(drops, text) => QuotingText(drops, text, ch);
      }
      Assoc(DocText(p.rows) + SlotsText(p.slots), PartText(p.part), [ch]);
    }
  }

  // ---------- The parser takes the same step

  /** The step goes from a part to the next, if that is valid. */
  ghost predicate PartAgrees(refuse: Refusal, q: Parser, part: Part, ch: char) {
    var r, next := Switch(refuse, q, ch), NextPart(part, ch);
    && (r.ok <==> ValidPart(next))
    && (r.ok ==> && r.p == q.(state := PartState(next), buf := r.p.buf)
                 && (r.p.state != S0 ==> r.p.buf == PartValue(next)))
  }

  lemma NothingStep(refuse: Refusal, q: Parser, drops: seq<Drop>, ch: char)
    requires ValidDrops(drops) && ch != LF && ch != ',' && q.state == S0
    ensures PartAgrees(refuse, q, Ready(Slot(drops, Nothing)), ch)
  {
    ValidDropsSnoc(drops, Blank(ch));
    WithoutCrSnoc([], ch);
    assert [] + [ch] == [ch];
  }

  lemma InQuotesStep(refuse: Refusal, q: Parser, drops: seq<Drop>, text: seq<char>, ch: char)
    requires ValidDrops(drops) && Fits(text) && ch != LF && ch != ','
    requires q.state == QuoteCheck && q.buf == text
    ensures PartAgrees(refuse, q, Ready(Slot(drops, InQuotes(text))), ch)
  {
    if ch != QUOTE {
      ValidDropsSnoc(drops, Lost(text, ch));
      assert ValidDrop(Lost(text, ch)) <==> DropChar(ch);
    }
  }

  lemma PlainStep(refuse: Refusal, q: Parser, drops: seq<Drop>, text: seq<char>, ch: char)
    requires ValidDrops(drops) && IsPlain(text) && ch != LF && ch != ','
    requires q.state == InField && q.buf == WithoutCr(text)
    ensures PartAgrees(refuse, q, Ready(Slot(drops, Plain(text))), ch)
  {
    PlainSnoc(text, ch);
    WithoutCrSnoc(text, ch);
  }

  lemma PlainSnoc(text: seq<char>, ch: char)
    requires IsPlain(text) && ch != LF && ch != ','
    ensures IsPlain(text + [ch]) <==> ch == CR || Fits(WithoutCr(text) + [ch])
  {
    AllSnoc(text, ch, PlainChar);
    WithoutCrSnoc(text, ch);
  }

  lemma QuotingStep(refuse: Refusal, q: Parser, drops: seq<Drop>, text: seq<char>, ch: char)
    requires ValidDrops(drops) && Fits(text) && q.state == Quoted && q.buf == text
    ensures PartAgrees(refuse, q, Quoting(drops, text), ch)
  {
  }

  lemma PartStep(refuse: Refusal, q: Parser, part: Part, ch: char)
    requires ValidPart(part) && (part.Ready? ==> ch != LF && ch != ',')
    requires q.state == PartState(part) && (q.state != S0 ==> q.buf == PartValue(part))
    ensures PartAgrees(refuse, q, part, ch)
  {
    match part
    case Quoting(drops, text) => QuotingStep(refuse, q, drops, text, ch);
    case Ready(slot) =>
      if slot.item.Nothing? {
        NothingStep(refuse, q, slot.drops, ch);
      } else if slot.item.InQuotes? {
        InQuotesStep(refuse, q, slot.drops, slot.item.text, ch);
      } else {
        PlainStep(refuse, q, slot.drops, slot.item.text, ch);
      }
  }

  /** What the end of a slot adds to the reports. */
  lemma FieldEvents(p: Progress, slot: Slot)
    ensures DocEvents(p.rows) + SlotsEvents(|p.rows|, p.slots + [slot]) ==
            Events(p) + SlotEvents(|p.rows|, |p.slots|, slot)
  {
    SlotsSnoc(p.slots, slot, |p.rows|);
    Assoc(DocEvents(p.rows), SlotsEvents(|p.rows|, p.slots), SlotEvents(|p.rows|, |p.slots|, slot));
  }

  lemma CommaStep(refuse: Refusal, q: Parser, p: Progress)
    requires Accepting(refuse) && p.part.Ready? && Describes(p, q)
    ensures Switch(refuse, q, ',').ok && Describes(Next(p, ','), Switch(refuse, q, ',').p)
  {
    FieldEvents(p, p.part.slot);
    IncNum(|p.slots|);
    assert Events(p) + [] == Events(p);
  }

  /** What the end of a row adds to the reports. */
  lemma RowReports(p: Progress, slot: Slot)
    requires forall i :: 0 <= i < |p.rows| ==> p.rows[i] != []
    ensures Events(Progress(p.rows + [p.slots + [slot]], [], Ready(EMPTY_SLOT))) ==
            Events(p) + SlotEvents(|p.rows|, |p.slots|, slot) + [RowEnd(Num(|p.rows|))]
  {
    var rows := p.rows + [p.slots + [slot]];
    FieldEvents(p, slot);
    RowsSnoc(p.rows, p.slots + [slot]);
    assert DocEvents(rows) + SlotsEvents(|rows|, []) == DocEvents(rows);
  }

  /** The parser at the end of a row, with and without a field to report. */
  lemma NewlineStep(refuse: Refusal, q: Parser)
    requires Accepting(refuse) && (q.state == QuoteCheck || q.state == InField)
    ensures var r := Switch(refuse, q, LF);
            && r.ok && r.p.state == S0 && r.p.row == Inc(q.row) && r.p.col == 0
            && r.p.log == q.log + [Field(q.row, q.col, q.buf)] + [RowEnd(q.row)]
  {
  }

  lemma EmptyLineStep(refuse: Refusal, q: Parser)
    requires q.state == S0
    ensures var r := Switch(refuse, q, LF);
            && r.ok && r.p.state == S0 && r.p.row == Inc(q.row) && r.p.col == 0
            && r.p.log == q.log + [] + [RowEnd(q.row)]
  {
    assert q.log + [] == q.log;
  }

  /** A parser between rows. */
  lemma BetweenRows(p: Progress, slot: Slot, q: Parser, q': Parser)
    requires forall i :: 0 <= i < |p.rows| ==> p.rows[i] != []
    requires q.row == Num(|p.rows|) && q.log == Events(p)
    requires q'.state == S0 && q'.row == Inc(q.row) && q'.col == 0
    requires q'.log == q.log + SlotEvents(|p.rows|, |p.slots|, slot) + [RowEnd(q.row)]
    ensures Describes(Progress(p.rows + [p.slots + [slot]], [], Ready(EMPTY_SLOT)), q')
  {
    RowReports(p, slot);
    IncNum(|p.rows|);
  }

  lemma LfStep(refuse: Refusal, q: Parser, p: Progress)
    requires Accepting(refuse) && p.part.Ready? && Describes(p, q)
    requires forall i :: 0 <= i < |p.rows| ==> p.rows[i] != []
    ensures Switch(refuse, q, LF).ok && Describes(Next(p, LF), Switch(refuse, q, LF).p)
  {
    if q.state == S0 {
      EmptyLineStep(refuse, q);
    } else {
      NewlineStep(refuse, q);
    }
    BetweenRows(p, p.part.slot, q, Switch(refuse, q, LF).p);
  }

  /** One byte, when no field is refused. */
  lemma AllowedStep(refuse: Refusal, q: Parser, p: Progress, ch: char)
    requires Accepting(refuse) && Valid(p) && Describes(p, q)
    ensures Step(refuse, q, ch).ok <==> Legal(p, ch)
    ensures Legal(p, ch) ==> Describes(Next(p, ch), Step(refuse, q, ch).p)
  {
    var q' := Advance(q, ch);
    assert Describes(p, q');
    if p.part.Ready? && ch == LF {
      LfStep(refuse, q', p);
    } else if p.part.Ready? && ch == ',' {
      CommaStep(refuse, q', p);
    } else {
      PartStep(refuse, q', p.part, ch);
    }
  }

  /** One byte: the parser takes it exactly when the grammar does and no field that it ends is refused;
      then it goes to the state described by the longer text. */
  lemma EveryStep(refuse: Refusal, q: Parser, p: Progress, ch: char)
    requires Valid(p) && Describes(p, q)
    ensures var r, next, h := Step(refuse, q, ch), Next(p, ch), FieldAnswers(refuse);
            && (Legal(p, ch) ==> && Events(p) <= Events(next)
                                 && r.p.log == Events(next)[..CutAt(h, Events(next), |Events(p)|)])
            && (r.ok <==> Legal(p, ch) && Unrefused(h, Events(next), |Events(p)|))
            && (r.ok ==> Describes(next, r.p))
  {
    AllowedStep(AllowAll(), q, p, ch);
    SwitchObeys(refuse, Advance(q, ch), ch);
    if !Legal(p, ch) {
      RefusedAlike(refuse, Advance(q, ch), ch);
    }
  }

  /** A byte that the parser refuses when every field is allowed is refused in any case. */
  lemma RefusedAlike(refuse: Refusal, q: Parser, ch: char)
    requires !Switch(AllowAll(), q, ch).ok
    ensures !Switch(refuse, q, ch).ok
  {
  }

  // ---------- One byte back

  function PrevPart(part: Part): Part
    requires part != Ready(EMPTY_SLOT)
  {
    match part
    case Ready(slot) =>
      (match slot.item
       case Nothing =>
         var init := slot.drops[..|slot.drops| - 1];
         (match slot.drops[|slot.drops| - 1]
          case Blank(_) => Ready(Slot(init, Nothing))
          case Lost(text, _) => Ready(Slot(init, InQuotes(text))))
       case InQuotes(text) => Quoting(slot.drops, text)
       case Plain(text) =>
         if |text| <= 1 then Ready(Slot(slot.drops, Nothing))
         else Ready(Slot(slot.drops, Plain(text[..|text| - 1]))))
    case Quoting(drops, text) =>
      if text == [] then Ready(Slot(drops, Nothing))
      else if text[|text| - 1] == QUOTE then Ready(Slot(drops, InQuotes(text[..|text| - 1])))
      else Quoting(drops, text[..|text| - 1])
  }

  function LastOfPart(part: Part): char
    requires part != Ready(EMPTY_SLOT)
    requires part.Ready? && part.slot.item.Plain? ==> part.slot.item.text != []
  {
    match part
    case Ready(slot) =>
      (match slot.item
       case Nothing => slot.drops[|slot.drops| - 1].c
       case InQuotes(_) => QUOTE
       case Plain(text) => text[|text| - 1])
    case Quoting(_, text) => if text == [] then QUOTE else text[|text| - 1]
  }

  /** The progress before the last byte of `p`. */
  function Prev(p: Progress): Progress
    requires Valid(p) && p != Progress([], [], Ready(EMPTY_SLOT))
  {
    if p.part != Ready(EMPTY_SLOT) then Progress(p.rows, p.slots, PrevPart(p.part))
    else if p.slots != [] then Progress(p.rows, p.slots[..|p.slots| - 1], Ready(p.slots[|p.slots| - 1]))
    else
      var row := p.rows[|p.rows| - 1];
      Progress(p.rows[..|p.rows| - 1], row[..|row| - 1], Ready(row[|row| - 1]))
  }

  function Last(p: Progress): char
    requires Valid(p)
  {
    if p.part != Ready(EMPTY_SLOT) then LastOfPart(p.part) else if p.slots != [] then ',' else LF
  }

  lemma PrevDropIsLegal(drops: seq<Drop>)
    requires ValidDrops(drops) && drops != []
    ensures var part := Ready(Slot(drops, Nothing));
            ValidPart(PrevPart(part)) && NextPart(PrevPart(part), LastOfPart(part)) == part
            && LastOfPart(part) != LF && LastOfPart(part) != ','
  {
    assert drops == drops[..|drops| - 1] + [drops[|drops| - 1]];
    assert ValidDrop(drops[|drops| - 1]);
  }

  lemma PrevPlainIsLegal(drops: seq<Drop>, text: seq<char>)
    requires ValidDrops(drops) && IsPlain(text)
    ensures var part := Ready(Slot(drops, Plain(text)));
            ValidPart(PrevPart(part)) && NextPart(PrevPart(part), LastOfPart(part)) == part
            && LastOfPart(part) != LF && LastOfPart(part) != ','
  {
    var init := text[..|text| - 1];
    assert text == init + [text[|text| - 1]];
    AllPrefix(init, text, PlainChar);
    WithoutCrSnoc(init, text[|text| - 1]);
    assert PlainChar(text[|text| - 1]);
  }

  lemma PrevPartIsLegal(part: Part)
    requires ValidPart(part) && part != Ready(EMPTY_SLOT)
    ensures ValidPart(PrevPart(part)) && NextPart(PrevPart(part), LastOfPart(part)) == part
    ensures PrevPart(part).Ready? ==> LastOfPart(part) != LF && LastOfPart(part) != ','
  {
    match part
    case Ready(slot) =>
      if slot.item.Nothing? {
        PrevDropIsLegal(slot.drops);
      } else if slot.item.Plain? {
        PrevPlainIsLegal(slot.drops, slot.item.text);
      }
    case Quoting(drops, text) =>
      if text != [] {
        assert text == text[..|text| - 1] + [text[|text| - 1]];
      }
  }

  lemma PrevIsLegal(p: Progress)
    requires Valid(p) && p != Progress([], [], Ready(EMPTY_SLOT))
    ensures Valid(Prev(p)) && Legal(Prev(p), Last(p))
    ensures Next(Prev(p), Last(p)) == p
  {
    if p.part != Ready(EMPTY_SLOT) {
      PrevPartIsLegal(p.part);
    } else if p.slots != [] {
      assert p.slots == p.slots[..|p.slots| - 1] + [p.slots[|p.slots| - 1]];
    } else {
      var row := p.rows[|p.rows| - 1];
      assert p.rows == p.rows[..|p.rows| - 1] + [row];
      assert row == row[..|row| - 1] + [row[|row| - 1]];
    }
  }

  // ---------- Main results

  /** The text of every valid progress is accepted and leads to the state described. */
  lemma {:induction false} DescribedIsReached(refuse: Refusal, p: Progress)
    requires Accepting(refuse) && Valid(p)
    ensures Run(refuse, INIT, Text(p)).ok && Describes(p, Run(refuse, INIT, Text(p)).p)
    decreases |Text(p)|
  {
    if p == Progress([], [], Ready(EMPTY_SLOT)) {
      assert Text(p) == [] && Describes(p, INIT);
    } else {
      var q, ch := Prev(p), Last(p);
      PrevIsLegal(p);
      NextText(q, ch);
      DescribedIsReached(refuse, q);
      var before := Run(refuse, INIT, Text(q)).p;
      AllowedStep(refuse, before, q, ch);
      RunSplit(refuse, INIT, Text(q), [ch]);
      assert Run(refuse, before, [ch]) == Run(refuse, Step(refuse, before, ch).p, []);
    }
  }

  lemma TextStep(p: Progress, input: seq<char>)
    requires Valid(p) && input != [] && Legal(p, input[0])
    ensures Valid(Next(p, input[0]))
    ensures Text(Next(p, input[0])) + input[1..] == Text(p) + input
  {
    NextText(p, input[0]);
    Shift(Text(p), Text(Next(p, input[0])), input);
  }

  lemma {:induction false} AcceptedFrom(refuse: Refusal, q: Parser, p: Progress, input: seq<char>)
    returns (p': Progress)
    requires Accepting(refuse) && Valid(p) && Describes(p, q)
    requires Run(refuse, q, input).ok
    ensures Valid(p') && Text(p') == Text(p) + input
    decreases |input|
  {
    if input == [] {
      p' := p;
    } else {
      AllowedStep(refuse, q, p, input[0]);
      TextStep(p, input);
      p' := AcceptedFrom(refuse, Step(refuse, q, input[0]).p, Next(p, input[0]), input[1..]);
    }
  }

  lemma AllowedExactly(refuse: Refusal, input: seq<char>)
    requires Accepting(refuse)
    ensures Run(refuse, INIT, input).ok <==> exists p: Progress :: Valid(p) && Text(p) == input
    ensures forall p: Progress :: Valid(p) && Text(p) == input ==> Describes(p, Run(refuse, INIT, input).p)
  {
    if Run(refuse, INIT, input).ok {
      var start := Progress([], [], Ready(EMPTY_SLOT));
      assert Describes(start, INIT) && Text(start) + input == input;
      var p := AcceptedFrom(refuse, INIT, start, input);
    }
    forall p: Progress | Valid(p) && Text(p) == input
      ensures Run(refuse, INIT, input).ok && Describes(p, Run(refuse, INIT, input).p)
    {
      DescribedIsReached(refuse, p);
    }
  }

  /** A call is accepted exactly when its input is the beginning of a document and none of its fields
      is refused; then the state it leaves is the one described.  The calls made are those of the
      document up to the first refused field. */
  lemma AcceptsExactly(refuse: Refusal, input: seq<char>)
    ensures Run(refuse, INIT, input).ok <==>
            exists p: Progress :: Valid(p) && Text(p) == input && Unrefused(FieldAnswers(refuse), Events(p), 0)
    ensures forall p: Progress :: Valid(p) && Text(p) == input ==>
              && Run(refuse, INIT, input).p.log == Events(p)[..CutAt(FieldAnswers(refuse), Events(p), 0)]
              && (Run(refuse, INIT, input).ok ==> Describes(p, Run(refuse, INIT, input).p))
  {
    AllowedExactly(AllowAll(), input);
    RefusalTruncates(refuse, INIT, input);
    if !Run(AllowAll(), INIT, input).ok {
      FailsAlike(refuse, INIT, input);
    }
  }

  /** What fails when every field is allowed fails in any case. */
  lemma {:induction false} FailsAlike(refuse: Refusal, q: Parser, input: seq<char>)
    requires !Run(AllowAll(), q, input).ok
    ensures !Run(refuse, q, input).ok
    decreases |input|
  {
    SwitchObeys(refuse, Advance(q, input[0]), input[0]);
    if Step(refuse, q, input[0]).ok && Step(AllowAll(), q, input[0]).ok {
      FailsAlike(refuse, Step(refuse, q, input[0]).p, input[1..]);
    }
  }

  /** A file: finished rows, then possibly a row without its LF. */
  ghost predicate IsFile(text: seq<char>, p: Progress) {
    Valid(p) && p.part.Ready? && Text(p) == text
  }

  /** Finished rows are a file. */
  lemma RowsAreFile(rows: seq<Row>)
    requires ValidRows(rows)
    ensures var p := Progress(rows, [], Ready(EMPTY_SLOT));
            IsFile(DocText(rows), p) && FileEvents(p) == DocEvents(rows)
  {
    assert PartText(Ready(EMPTY_SLOT)) == [] && SlotsText([]) == [];
    assert DocText(rows) + [] + [] == DocText(rows);
    assert DocEvents(rows) + [] == DocEvents(rows);
  }

  /** The reports of a file: a last row without its LF is closed only if its last slot has a field. */
  function FileEvents(p: Progress): seq<Event>
    requires p.part.Ready?
  {
    if p.part.slot.item.Nothing? then Events(p)
    else Events(p) + SlotEvents(|p.rows|, |p.slots|, p.part.slot) + [RowEnd(Num(|p.rows|))]
  }

  lemma EolReports(refuse: Refusal, q: Parser, p: Progress)
    requires Accepting(refuse) && Describes(p, q)
    ensures Eol(refuse, q).ok <==> p.part.Ready?
    ensures p.part.Ready? ==> Eol(refuse, q).p.log == FileEvents(p)
  {
  }

  lemma AllowedLoads(refuse: Refusal, chunks: seq<seq<char>>)
    requires Accepting(refuse)
    ensures Load(refuse, chunks).ok <==> exists p: Progress :: IsFile(Flatten(chunks), p)
    ensures forall p: Progress :: IsFile(Flatten(chunks), p) ==> Load(refuse, chunks).p.log == FileEvents(p)
  {
    var text := Flatten(chunks);
    ChunkIndependence(refuse, INIT, chunks);
    AllowedExactly(refuse, text);
    var q := Run(refuse, INIT, text).p;
    forall p: Progress | Valid(p) && Text(p) == text
      ensures Eol(refuse, q).ok <==> p.part.Ready?
      ensures p.part.Ready? ==> Eol(refuse, q).p.log == FileEvents(p)
    {
      EolReports(refuse, q, p);
    }
    if Load(refuse, chunks).ok {
      var p: Progress :| Valid(p) && Text(p) == text;
      assert IsFile(text, p);
    }
  }

  /** Main result: whatever the callback answers, csv_push followed by csv_eol takes exactly the files
      of this language none of whose fields is refused, cut anyhow, and makes exactly the calls for
      their fields and rows up to the first refused field. */
  lemma LoadsExactly(refuse: Refusal, chunks: seq<seq<char>>)
    ensures Load(refuse, chunks).ok <==>
            exists p: Progress :: IsFile(Flatten(chunks), p) && Unrefused(FieldAnswers(refuse), FileEvents(p), 0)
    ensures forall p: Progress :: IsFile(Flatten(chunks), p) ==>
              Load(refuse, chunks).p.log == FileEvents(p)[..CutAt(FieldAnswers(refuse), FileEvents(p), 0)]
  {
    AllowedLoads(AllowAll(), chunks);
    LoadObeys(refuse, chunks);
    if !Load(AllowAll(), chunks).ok {
      LoadFailsAlike(refuse, chunks);
    }
  }

  lemma LoadFailsAlike(refuse: Refusal, chunks: seq<seq<char>>)
    requires !Load(AllowAll(), chunks).ok
    ensures !Load(refuse, chunks).ok
  {
    var text := Flatten(chunks);
    ChunkIndependence(refuse, INIT, chunks);
    ChunkIndependence(AllowAll(), INIT, chunks);
    RefusalTruncates(refuse, INIT, text);
    if !Run(AllowAll(), INIT, text).ok {
      FailsAlike(refuse, INIT, text);
    }
  }

  // ---------- Inputs that are no beginning of a document

  lemma {:induction false} RunFrom(q: Parser, p: Progress, input: seq<char>) returns (p': Progress, rest: seq<char>)
    requires Valid(p) && Describes(p, q)
    ensures Valid(p') && Text(p) + input == Text(p') + rest
    ensures Run(AllowAll(), q, input).ok <==> rest == []
    ensures rest != [] ==> !Legal(p', rest[0])
    ensures Run(AllowAll(), q, input).p.log == Events(p')
    decreases |input|
  {
    if input == [] || !Legal(p, input[0]) {
      p', rest := p, input;
      if input != [] {
        AllowedStep(AllowAll(), q, p, input[0]);
        FailedStepKeepsLog(q, input[0]);
      }
    } else {
      AllowedStep(AllowAll(), q, p, input[0]);
      TextStep(p, input);
      p', rest := RunFrom(Step(AllowAll(), q, input[0]).p, Next(p, input[0]), input[1..]);
    }
  }

  lemma FailedStepKeepsLog(q: Parser, ch: char)
    requires !Step(AllowAll(), q, ch).ok
    ensures Step(AllowAll(), q, ch).p.log == q.log
  {
  }

  /** Main result: every input splits into the longest beginning of a document and what cannot follow it,
      and the calls made are those of that beginning up to the first refused field. */
  lemma EveryRunIsDescribed(refuse: Refusal, input: seq<char>) returns (p: Progress, rest: seq<char>)
    ensures Valid(p) && input == Text(p) + rest && (rest != [] ==> !Legal(p, rest[0]))
    ensures Run(refuse, INIT, input).ok <==> rest == [] && Unrefused(FieldAnswers(refuse), Events(p), 0)
    ensures Run(refuse, INIT, input).p.log == Events(p)[..CutAt(FieldAnswers(refuse), Events(p), 0)]
  {
    var start := Progress([], [], Ready(EMPTY_SLOT));
    assert Describes(start, INIT) && Text(start) + input == input;
    p, rest := RunFrom(INIT, start, input);
    RefusalTruncates(refuse, INIT, input);
    if rest != [] {
      FailsAlike(refuse, INIT, input);
    }
  }

  // ---------- Fields that are not reported

  /** The text of a progress is accepted unless one of its fields is refused. */
  lemma TextRun(refuse: Refusal, p: Progress)
    requires Valid(p)
    ensures var r, h := Run(refuse, INIT, Text(p)), FieldAnswers(refuse);
            && (r.ok <==> Unrefused(h, Events(p), 0))
            && r.p.log == Events(p)[..CutAt(h, Events(p), 0)]
            && (r.ok ==> Describes(p, r.p))
  {
    DescribedIsReached(AllowAll(), p);
    RefusalTruncates(refuse, INIT, Text(p));
  }

  lemma SilentComma(p: Progress)
    requires p.part.Ready? && p.part.slot.item.Nothing?
    ensures Events(Next(p, ',')) == Events(p)
  {
    FieldEvents(p, p.part.slot);
    assert Events(p) + [] == Events(p);
  }

  /** Main result: an empty bare field in front of a comma makes no call, wherever it stands, though the
      next field counts it. */
  lemma EmptyFieldIsSilent(refuse: Refusal, p: Progress)
    requires Valid(p) && p.part.Ready? && p.part.slot.item.Nothing?
    ensures var without, with := Run(refuse, INIT, Text(p)), Run(refuse, INIT, Text(p) + [',']);
            && with.ok == without.ok && with.p.log == without.p.log
            && (with.ok ==> with.p.col == Inc(without.p.col))
  {
    var next := Next(p, ',');
    CommaText(p);
    SilentComma(p);
    TextRun(refuse, p);
    TextRun(refuse, next);
    IncNum(|p.slots|);
    assert |next.slots| == |p.slots| + 1;
  }

  // ---------- A quoted field before white space

  lemma LostText(p: Progress, text: seq<char>, c: char)
    requires Valid(p) && p.part.Ready? && p.part.slot.item.Nothing? && Fits(text) && DropChar(c)
    ensures var q := Progress(p.rows, p.slots, Ready(Slot(p.part.slot.drops + [Lost(text, c)], Nothing)));
            Valid(q) && Text(q) == Text(p) + (QuotedText(text) + [c]) && Events(q) == Events(p)
  {
    var drops := p.part.slot.drops;
    DropsSnoc(drops, Lost(text, c));
    ValidDropsSnoc(drops, Lost(text, c));
    assert forall s: seq<char> :: s + [] == s;
    Assoc(DocText(p.rows) + SlotsText(p.slots), DropsText(drops), QuotedText(text) + [c]);
  }

  /** Main result: a quoted field with white space behind its quote is taken and lost: the calls are as
      if it were not there, wherever it stands and whatever the callback answers. */
  lemma QuotedBeforeBlankIsLost(refuse: Refusal, p: Progress, text: seq<char>, c: char)
    requires Valid(p) && p.part.Ready? && p.part.slot.item.Nothing? && Fits(text) && DropChar(c)
    ensures var without, with := Run(refuse, INIT, Text(p)), Run(refuse, INIT, Text(p) + (QuotedText(text) + [c]));
            with.ok == without.ok && with.p.log == without.p.log
  {
    LostText(p, text, c);
    TextRun(refuse, p);
    TextRun(refuse, Progress(p.rows, p.slots, Ready(Slot(p.part.slot.drops + [Lost(text, c)], Nothing))));
  }

  /** The slot that holds nothing but such a field, and the row of it. */
  function LostSlot(text: seq<char>, c: char): Progress {
    Progress([], [], Ready(Slot([] + [Lost(text, c)], Nothing)))
  }

  function LostRowOf(text: seq<char>, c: char): (p: Progress)
    ensures p.part == Ready(EMPTY_SLOT)
  {
    Next(LostSlot(text, c), LF)
  }

  lemma LostSlotText(text: seq<char>, c: char)
    requires Fits(text) && DropChar(c)
    ensures Valid(LostSlot(text, c)) && Text(LostSlot(text, c)) == QuotedText(text) + [c]
  {
    var start := Progress([], [], Ready(EMPTY_SLOT));
    LostText(start, text, c);
    FreshText([], []);
    assert [] + (QuotedText(text) + [c]) == QuotedText(text) + [c];
  }

  lemma LostRowIsFile(text: seq<char>, c: char)
    requires Fits(text) && DropChar(c)
    ensures IsFile(QuotedText(text) + [c] + [LF], LostRowOf(text, c))
  {
    LostSlotText(text, c);
    LfText(LostSlot(text, c));
    LfKeepsValid(LostSlot(text, c));
  }

  lemma LostRowReports(text: seq<char>, c: char)
    ensures FileEvents(LostRowOf(text, c)) == [RowEnd(0)]
  {
    RowReports(LostSlot(text, c), LostSlot(text, c).part.slot);
  }

  /** Such a file is accepted with a row and without a field. */
  lemma LostRow(refuse: Refusal, text: seq<char>, c: char, chunks: seq<seq<char>>)
    requires Fits(text) && DropChar(c) && Flatten(chunks) == QuotedText(text) + [c] + [LF]
    ensures Load(refuse, chunks).ok && Load(refuse, chunks).p.log == [RowEnd(0)]
  {
    LostRowIsFile(text, c);
    LostRowReports(text, c);
    LoadsExactly(refuse, chunks);
    OnlyRowEnd(refuse, [RowEnd(0)]);
  }

  lemma OnlyRowEnd(refuse: Refusal, log: seq<Event>)
    requires log == [RowEnd(0)]
    ensures Unrefused(FieldAnswers(refuse), log, 0)
  {
    assert log[..1] == log;
  }
}
