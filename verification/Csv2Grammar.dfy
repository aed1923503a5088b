/** The language of csv2.c, and what it reports, stated without reference to the parser.

    RFC 4180 (section 2) has quoted and bare fields.  The parser takes more: a field is any list of
    quoted runs and bare bytes, so long as two quoted runs do not touch (they would be one run with
    a doubled quote).  It takes less at the end of a line, where only LF is accepted. */
module Csv2Grammar {
  import opened Bytes
  import opened CsvReports
  import opened Csv2

  datatype Piece = Bare(c: char) | Quoted(text: seq<char>)

  type Cell = seq<Piece>

  type Row = seq<Cell>

  // ---------- Text

  function PieceText(p: Piece): seq<char> {
    match p
    case Bare(c) => [c]
    case Quoted(text) => [QUOTE] + Doubled(text) + [QUOTE]
  }

  function CellText(cell: Cell): seq<char> {
    if cell == [] then [] else CellText(cell[..|cell| - 1]) + PieceText(cell[|cell| - 1])
  }

  /** Fields that are followed by a comma. */
  function CellsText(cells: seq<Cell>): seq<char> {
    if cells == [] then []
    else CellsText(cells[..|cells| - 1]) + (CellText(cells[|cells| - 1]) + [','])
  }

  function RowText(row: Row): seq<char>
    requires row != []
  {
    CellsText(row[..|row| - 1]) + CellText(row[|row| - 1]) + [LF]
  }

  function DocText(rows: seq<Row>): seq<char>
    requires forall i :: 0 <= i < |rows| ==> rows[i] != []
  {
    if rows == [] then [] else DocText(rows[..|rows| - 1]) + RowText(rows[|rows| - 1])
  }

  // ---------- Meaning

  function PieceValue(p: Piece): seq<char> {
    match p
    case Bare(c) => [c]
    case Quoted(text) => text
  }

  function CellValue(cell: Cell): seq<char> {
    if cell == [] then [] else CellValue(cell[..|cell| - 1]) + PieceValue(cell[|cell| - 1])
  }

  function CellsEvents(row: nat, cells: seq<Cell>): seq<Event> {
    if cells == [] then []
    else
      CellsEvents(row, cells[..|cells| - 1])
      + [Field(Num(row), Num(|cells| - 1), CellValue(cells[|cells| - 1]))]
  }

  function DocEvents(rows: seq<Row>): seq<Event> {
    if rows == [] then []
    else
      DocEvents(rows[..|rows| - 1]) + CellsEvents(|rows| - 1, rows[|rows| - 1]) + [RowEnd(Num(|rows| - 1))]
  }

  // ---------- Well-formedness

  predicate BareChar(c: char) {
    c != QUOTE && c != ',' && c != CR && c != LF
  }

  predicate BareBytes(cell: Cell) {
    forall i :: 0 <= i < |cell| && cell[i].Bare? ==> BareChar(cell[i].c)
  }

  /** No two quoted runs touch. */
  predicate Apart(cell: Cell) {
    forall i :: 0 < i < |cell| ==> cell[i].Bare? || cell[i - 1].Bare?
  }

  predicate ValidCell(cell: Cell, max: nat) {
    BareBytes(cell) && Apart(cell) && |CellValue(cell)| < max
  }

  predicate ValidCells(cells: seq<Cell>, max: nat) {
    forall i :: 0 <= i < |cells| ==> ValidCell(cells[i], max)
  }

  predicate ValidRows(rows: seq<Row>, max: nat) {
    forall i :: 0 <= i < |rows| ==> rows[i] != [] && ValidCells(rows[i], max)
  }

  // ---------- Unfinished documents

  datatype Part = InCell(cell: Cell) | InQuotes(cell: Cell, text: seq<char>) | AtCr(cell: Cell)

  datatype Progress = Progress(rows: seq<Row>, cells: seq<Cell>, part: Part)

  /** A quoted run may follow. */
  predicate Open(cell: Cell) {
    cell == [] || cell[|cell| - 1].Bare?
  }

  predicate ValidPart(part: Part, max: nat) {
    match part
    case InCell(cell) => ValidCell(cell, max)
    case InQuotes(cell, text) => ValidCell(cell, max) && Open(cell) && |CellValue(cell)| + |text| < max
    case AtCr(cell) => ValidCell(cell, max)
  }

  predicate Valid(p: Progress, max: nat) {
    ValidRows(p.rows, max) && ValidCells(p.cells, max) && ValidPart(p.part, max)
  }

  function PartText(part: Part): seq<char> {
    match part
    case InCell(cell) => CellText(cell)
    case InQuotes(cell, text) => CellText(cell) + ([QUOTE] + Doubled(text))
    case AtCr(cell) => CellText(cell) + [CR]
  }

  function Text(p: Progress): seq<char>
    requires forall i :: 0 <= i < |p.rows| ==> p.rows[i] != []
  {
    DocText(p.rows) + CellsText(p.cells) + PartText(p.part)
  }

  function PartState(part: Part): State {
    match part
    case InCell(cell) => if cell == [] then Start else if Open(cell) then Unescaped else EscapedDquote
    case InQuotes(_, _) => Escaped
    case AtCr(_) => Newline
  }

  function PartValue(part: Part): seq<char> {
    match part
    case InCell(cell) => CellValue(cell)
    case InQuotes(cell, text) => CellValue(cell) + text
    case AtCr(cell) => CellValue(cell)
  }

  function Events(p: Progress): seq<Event> {
    DocEvents(p.rows) + CellsEvents(|p.rows|, p.cells)
  }

  /** The whole state of the parser after reading `Text(p)`. */
  function Described(p: Progress): Parser {
    Parser(PartState(p.part), Num(|p.rows|), Num(|p.cells|), PartValue(p.part), Events(p))
  }

  // ---------- One byte forward

  function NextPart(part: Part, ch: char): Part {
    match part
    case InCell(cell) =>
      if ch == CR then AtCr(cell)
      else if ch == LF || ch == ',' then InCell([])
      else if ch != QUOTE then InCell(cell + [Bare(ch)])
      else if Open(cell) then InQuotes(cell, [])
      else InQuotes(cell[..|cell| - 1], cell[|cell| - 1].text + [QUOTE])
    case InQuotes(cell, text) =>
      if ch == QUOTE then InCell(cell + [Quoted(text)]) else InQuotes(cell, text + [ch])
    case AtCr(cell) => part
  }

  function Next(p: Progress, ch: char): Progress {
    if p.part.InCell? && ch == LF then Progress(p.rows + [p.cells + [p.part.cell]], [], InCell([]))
    else if p.part.InCell? && ch == ',' then Progress(p.rows, p.cells + [p.part.cell], InCell([]))
    else Progress(p.rows, p.cells, NextPart(p.part, ch))
  }

  predicate Legal(p: Progress, max: nat, ch: char) {
    !p.part.AtCr? && ValidPart(NextPart(p.part, ch), max)
  }

  lemma CellSnoc(cell: Cell, piece: Piece)
    ensures CellText(cell + [piece]) == CellText(cell) + PieceText(piece)
    ensures CellValue(cell + [piece]) == CellValue(cell) + PieceValue(piece)
  {
    assert (cell + [piece])[..|cell|] == cell;
  }

  lemma CellsSnoc(cells: seq<Cell>, cell: Cell, row: nat)
    ensures CellsText(cells + [cell]) == CellsText(cells) + (CellText(cell) + [','])
    ensures CellsEvents(row, cells + [cell]) ==
            CellsEvents(row, cells) + [Field(Num(row), Num(|cells|), CellValue(cell))]
  {
    assert (cells + [cell])[..|cells|] == cells;
  }

  lemma RowSnoc(cells: seq<Cell>, cell: Cell)
    ensures RowText(cells + [cell]) == CellsText(cells) + CellText(cell) + [LF]
  {
    assert (cells + [cell])[..|cells|] == cells;
  }

  lemma RowsSnoc(rows: seq<Row>, row: Row)
    requires row != [] && forall i :: 0 <= i < |rows| ==> rows[i] != []
    ensures DocText(rows + [row]) == DocText(rows) + RowText(row)
    ensures DocEvents(rows + [row]) == DocEvents(rows) + CellsEvents(|rows|, row) + [RowEnd(Num(|rows|))]
  {
    assert (rows + [row])[..|rows|] == rows;
  }

  lemma BareBytesSnoc(cell: Cell, piece: Piece)
    ensures BareBytes(cell + [piece]) <==> BareBytes(cell) && (piece.Bare? ==> BareChar(piece.c))
  {
    var longer := cell + [piece];
    assert longer[|cell|] == piece;
    assert forall i :: 0 <= i < |cell| ==> longer[i] == cell[i];
  }

  lemma ApartSnoc(cell: Cell, piece: Piece)
    ensures Apart(cell + [piece]) <==> Apart(cell) && (piece.Quoted? ==> Open(cell))
  {
    var longer := cell + [piece];
    assert longer[|cell|] == piece;
    assert forall i :: 0 <= i < |cell| ==> longer[i] == cell[i];
  }

  lemma ValidCellSnoc(cell: Cell, piece: Piece, max: nat)
    requires ValidCell(cell, max)
    ensures ValidCell(cell + [piece], max) <==>
            && (piece.Bare? ==> BareChar(piece.c))
            && (piece.Quoted? ==> Open(cell))
            && |CellValue(cell)| + |PieceValue(piece)| < max
  {
    CellSnoc(cell, piece);
    BareBytesSnoc(cell, piece);
    ApartSnoc(cell, piece);
  }

  lemma ValidCellInit(cell: Cell, max: nat)
    requires ValidCell(cell, max) && cell != []
    ensures ValidCell(cell[..|cell| - 1], max)
    ensures cell[|cell| - 1].Quoted? ==> Open(cell[..|cell| - 1])
    ensures CellText(cell) == CellText(cell[..|cell| - 1]) + PieceText(cell[|cell| - 1])
    ensures CellValue(cell) == CellValue(cell[..|cell| - 1]) + PieceValue(cell[|cell| - 1])
  {
    if cell[|cell| - 1].Quoted? && |cell| > 1 {
      assert cell[|cell| - 1].Bare? || cell[|cell| - 2].Bare?;
    }
  }

  /** The field read so far grows by the byte read. */
  lemma NextPartText(part: Part, ch: char, max: nat)
    requires ValidPart(part, max) && !part.AtCr?
    requires part.InCell? ==> ch != LF && ch != ','
    ensures PartText(NextPart(part, ch)) == PartText(part) + [ch]
  {
    match part
    case InCell(cell) =>
      if ch != CR && ch != QUOTE {
        CellSnoc(cell, Bare(ch));
      } else if ch == QUOTE && !Open(cell) {
        ReopenedText(cell);
      }
    case InQuotes(cell, text) =>
      if ch == QUOTE {
        CellSnoc(cell, Quoted(text));
        Assoc(CellText(cell), [QUOTE] + Doubled(text), [QUOTE]);
      } else {
        DoubledSnoc(text, ch);
        Assoc([QUOTE], Doubled(text), [ch]);
        Assoc(CellText(cell), [QUOTE] + Doubled(text), [ch]);
      }
  }

  /** A quote after a closing quote reopens the run with a doubled quote. */
  lemma ReopenedText(cell: Cell)
    requires !Open(cell)
    ensures var init, text := cell[..|cell| - 1], cell[|cell| - 1].text;
            CellText(init) + ([QUOTE] + Doubled(text + [QUOTE])) == CellText(cell) + [QUOTE]
  {
    var init, text := cell[..|cell| - 1], cell[|cell| - 1].text;
    DoubledSnoc(text, QUOTE);
    assert [QUOTE] + (Doubled(text) + [QUOTE, QUOTE]) == ([QUOTE] + Doubled(text) + [QUOTE]) + [QUOTE];
    Assoc(CellText(init), [QUOTE] + Doubled(text) + [QUOTE], [QUOTE]);
  }

  /** Nothing has been read of the next field. */
  lemma FreshText(rows: seq<Row>, cells: seq<Cell>)
    requires forall i :: 0 <= i < |rows| ==> rows[i] != []
    ensures Text(Progress(rows, cells, InCell([]))) == DocText(rows) + CellsText(cells)
    ensures Text(Progress(rows, [], InCell([]))) == DocText(rows)
  {
    assert PartText(InCell([])) == [] && CellsText([]) == [];
  }

  lemma LfKeepsValid(p: Progress, max: nat)
    requires Valid(p, max) && p.part.InCell? && 0 < max
    ensures Valid(Next(p, LF), max)
  {
  }

  lemma LfText(p: Progress)
    requires p.part.InCell? && forall i :: 0 <= i < |p.rows| ==> p.rows[i] != []
    ensures forall i :: 0 <= i < |Next(p, LF).rows| ==> Next(p, LF).rows[i] != []
    ensures Text(Next(p, LF)) == Text(p) + [LF]
  {
    var row := p.cells + [p.part.cell];
    var doc, front, last := DocText(p.rows), CellsText(p.cells), CellText(p.part.cell);
    assert Text(Next(p, LF)) == doc + (front + last + [LF]) by {
      RowSnoc(p.cells, p.part.cell);
      RowsSnoc(p.rows, row);
      FreshText(p.rows + [row], []);
    }
    assert Text(p) == doc + front + last;
    Assoc4(doc, front, last, [LF]);
  }

  lemma CommaText(p: Progress, max: nat)
    requires Valid(p, max) && p.part.InCell?
    ensures Valid(Next(p, ','), max)
    ensures Text(Next(p, ',')) == Text(p) + [',']
  {
    var cells, cell := p.cells, p.part.cell;
    CellsSnoc(cells, cell, 0);
    FreshText(p.rows, cells + [cell]);
    Assoc4(DocText(p.rows), CellsText(cells), CellText(cell), [',']);
  }

  lemma NextText(p: Progress, ch: char, max: nat)
    requires Valid(p, max) && Legal(p, max, ch)
    ensures Valid(Next(p, ch), max)
    ensures Text(Next(p, ch)) == Text(p) + [ch]
  {
    if p.part.InCell? && ch == LF {
      LfText(p);
      LfKeepsValid(p, max);
    } else if p.part.InCell? && ch == ',' {
      CommaText(p, max);
    } else {
      NextPartText(p.part, ch, max);
      Assoc(DocText(p.rows) + CellsText(p.cells), PartText(p.part), [ch]);
    }
  }

  // ---------- The parser takes the same step

  /** The step goes from a part to the next, if that is valid. */
  ghost predicate PartAgrees(c: Config, p: Parser, part: Part, ch: char) {
    var r, next := Step(c, p, ch), NextPart(part, ch);
    && (r.ok <==> ValidPart(next, c.max))
    && (r.ok ==> r.p == p.(s := PartState(next), buf := PartValue(next)))
  }

  lemma ReopenStep(c: Config, p: Parser, cell: Cell)
    requires ValidCell(cell, c.max) && !Open(cell)
    requires p.s == EscapedDquote && p.buf == CellValue(cell)
    ensures PartAgrees(c, p, InCell(cell), QUOTE)
  {
    ValidCellInit(cell, c.max);
    Assoc(CellValue(cell[..|cell| - 1]), cell[|cell| - 1].text, [QUOTE]);
  }

  lemma BareStep(c: Config, p: Parser, cell: Cell, ch: char)
    requires ValidCell(cell, c.max) && BareChar(ch)
    requires p.s == PartState(InCell(cell)) && p.buf == CellValue(cell)
    ensures PartAgrees(c, p, InCell(cell), ch)
  {
    CellSnoc(cell, Bare(ch));
    ValidCellSnoc(cell, Bare(ch), c.max);
    assert (cell + [Bare(ch)])[|cell|] == Bare(ch);
  }

  lemma CellStep(c: Config, p: Parser, cell: Cell, ch: char)
    requires ValidCell(cell, c.max) && ch != LF && ch != ',' && (ch == QUOTE ==> Open(cell))
    requires p.s == PartState(InCell(cell)) && p.buf == CellValue(cell)
    ensures PartAgrees(c, p, InCell(cell), ch)
  {
    if ch != CR && ch != QUOTE {
      BareStep(c, p, cell, ch);
    }
  }

  lemma QuotesStep(c: Config, p: Parser, cell: Cell, text: seq<char>, ch: char)
    requires ValidPart(InQuotes(cell, text), c.max)
    requires p.s == Escaped && p.buf == CellValue(cell) + text
    ensures PartAgrees(c, p, InQuotes(cell, text), ch)
  {
    if ch == QUOTE {
      CellSnoc(cell, Quoted(text));
      ValidCellSnoc(cell, Quoted(text), c.max);
    } else {
      Assoc(CellValue(cell), text, [ch]);
    }
  }

  /** The step inside one field. */
  lemma PartStep(c: Config, p: Parser, part: Part, ch: char)
    requires ValidPart(part, c.max) && !part.AtCr?
    requires part.InCell? ==> ch != LF && ch != ','
    requires p.s == PartState(part) && p.buf == PartValue(part)
    ensures PartAgrees(c, p, part, ch)
  {
    match part
    case InCell(cell) => if ch == QUOTE && !Open(cell) { ReopenStep(c, p, cell); } else { CellStep(c, p, cell, ch); }
    case InQuotes(cell, text) => QuotesStep(c, p, cell, text, ch);
  }

  /** What the end of a field adds to the reports. */
  lemma FieldEvents(p: Progress, cell: Cell)
    ensures DocEvents(p.rows) + CellsEvents(|p.rows|, p.cells + [cell]) ==
            Events(p) + [Field(Num(|p.rows|), Num(|p.cells|), CellValue(cell))]
  {
    CellsSnoc(p.cells, cell, |p.rows|);
    Assoc(DocEvents(p.rows), CellsEvents(|p.rows|, p.cells),
          [Field(Num(|p.rows|), Num(|p.cells|), CellValue(cell))]);
  }

  lemma CommaStep(c: Config, p: Progress)
    requires Accepting(c.refuse) && p.part.InCell?
    ensures Step(c, Described(p), ',') == Result(Described(Next(p, ',')), true)
  {
    FieldEvents(p, p.part.cell);
    IncNum(|p.cells|);
  }

  /** What the end of a row does. */
  lemma RowDescribed(c: Config, before: Parser, p: Progress)
    requires Accepting(c.refuse)
    requires forall i :: 0 <= i < |p.rows| ==> p.rows[i] != []
    requires before.row == Num(|p.rows|) && before.col == Num(|p.cells|) && before.log == Events(p)
    requires before.buf == CellValue(p.part.cell)
    ensures RowDone(c, before) == Described(Progress(p.rows + [p.cells + [p.part.cell]], [], InCell([])))
  {
    var rows := p.rows + [p.cells + [p.part.cell]];
    FieldEvents(p, p.part.cell);
    RowsSnoc(p.rows, p.cells + [p.part.cell]);
    IncNum(|p.rows|);
    assert DocEvents(rows) + CellsEvents(|rows|, []) == DocEvents(rows);
  }

  lemma LfStep(c: Config, p: Progress)
    requires Accepting(c.refuse) && p.part.InCell?
    requires forall i :: 0 <= i < |p.rows| ==> p.rows[i] != []
    ensures Step(c, Described(p), LF) == Result(Described(Next(p, LF)), true)
  {
    RowDescribed(c, Described(p), p);
  }

  /** One byte, when no callback refuses. */
  lemma AllowedStep(c: Config, p: Progress, ch: char)
    requires Accepting(c.refuse) && Valid(p, c.max) && 0 < c.max
    ensures Step(c, Described(p), ch).ok <==> Legal(p, c.max, ch)
    ensures Legal(p, c.max, ch) ==>
              && Valid(Next(p, ch), c.max)
              && Text(Next(p, ch)) == Text(p) + [ch]
              && Step(c, Described(p), ch).p == Described(Next(p, ch))
  {
    if Legal(p, c.max, ch) {
      NextText(p, ch, c.max);
    }
    if !p.part.AtCr? {
      if p.part.InCell? && ch == LF {
        LfStep(c, p);
      } else if p.part.InCell? && ch == ',' {
        CommaStep(c, p);
      } else {
        PartStep(c, Described(p), p.part, ch);
      }
    }
  }

  /** One byte: the parser refuses it exactly when the grammar does; otherwise it goes to the state
      described by the longer text, unless a callback refuses a call that this byte causes. */
  lemma EveryStep(c: Config, p: Progress, ch: char)
    requires Valid(p, c.max) && 0 < c.max
    ensures Step(c, Described(p), ch).ok <==> Legal(p, c.max, ch)
    ensures Legal(p, c.max, ch) ==>
              var q, next := Step(c, Described(p), ch).p, Next(p, ch);
              && Valid(next, c.max) && Text(next) == Text(p) + [ch] && Events(p) <= Events(next)
              && q.log == Heard(c.refuse, Events(next), |Events(p)|)
              && if Unrefused(c.refuse, Events(next), |Events(p)|) then q == Described(next) else q.s == Error
  {
    AllowedStep(Permissive(c), p, ch);
    StepObeys(c, Described(p), ch);
  }

  // ---------- One byte back

  function PrevPart(part: Part): Part
    requires part != InCell([])
  {
    match part
    case InCell(cell) =>
      var init := cell[..|cell| - 1];
      (match cell[|cell| - 1]
       case Bare(_) => InCell(init)
       case Quoted(text) => InQuotes(init, text))
    case InQuotes(cell, text) =>
      if text == [] then InCell(cell)
      else if text[|text| - 1] == QUOTE then InCell(cell + [Quoted(text[..|text| - 1])])
      else InQuotes(cell, text[..|text| - 1])
    case AtCr(cell) => InCell(cell)
  }

  function LastOfPart(part: Part): char
    requires part != InCell([])
  {
    match part
    case InCell(cell) =>
      (match cell[|cell| - 1]
       case Bare(c) => c
       case Quoted(_) => QUOTE)
    case InQuotes(_, text) => if text == [] then QUOTE else text[|text| - 1]
    case AtCr(_) => CR
  }

  /** The progress before the last byte of `p`. */
  function Prev(p: Progress): Progress
    requires p != Progress([], [], InCell([]))
    requires forall i :: 0 <= i < |p.rows| ==> p.rows[i] != []
  {
    if p.part != InCell([]) then Progress(p.rows, p.cells, PrevPart(p.part))
    else if p.cells != [] then Progress(p.rows, p.cells[..|p.cells| - 1], InCell(p.cells[|p.cells| - 1]))
    else
      var row := p.rows[|p.rows| - 1];
      Progress(p.rows[..|p.rows| - 1], row[..|row| - 1], InCell(row[|row| - 1]))
  }

  function Last(p: Progress): char {
    if p.part != InCell([]) then LastOfPart(p.part) else if p.cells != [] then ',' else LF
  }

  lemma PrevCellIsLegal(cell: Cell, max: nat)
    requires ValidCell(cell, max) && cell != []
    ensures ValidPart(PrevPart(InCell(cell)), max)
    ensures NextPart(PrevPart(InCell(cell)), LastOfPart(InCell(cell))) == InCell(cell)
    ensures cell[|cell| - 1].Bare? ==> BareChar(cell[|cell| - 1].c)
  {
    ValidCellInit(cell, max);
    assert cell == cell[..|cell| - 1] + [cell[|cell| - 1]];
  }

  lemma PrevQuotesIsLegal(cell: Cell, text: seq<char>, max: nat)
    requires ValidPart(InQuotes(cell, text), max)
    ensures ValidPart(PrevPart(InQuotes(cell, text)), max)
    ensures NextPart(PrevPart(InQuotes(cell, text)), LastOfPart(InQuotes(cell, text))) == InQuotes(cell, text)
  {
    if text != [] {
      var init := text[..|text| - 1];
      assert text == init + [text[|text| - 1]];
      if text[|text| - 1] == QUOTE {
        var longer := cell + [Quoted(init)];
        CellSnoc(cell, Quoted(init));
        ValidCellSnoc(cell, Quoted(init), max);
        assert longer[..|longer| - 1] == cell && longer[|longer| - 1] == Quoted(init);
      }
    }
  }

  lemma PrevPartIsLegal(part: Part, max: nat)
    requires ValidPart(part, max) && part != InCell([])
    ensures ValidPart(PrevPart(part), max) && !PrevPart(part).AtCr?
    ensures NextPart(PrevPart(part), LastOfPart(part)) == part
    ensures PrevPart(part).InCell? ==> LastOfPart(part) != ',' && LastOfPart(part) != LF
  {
    match part
    case InCell(cell) => PrevCellIsLegal(cell, max);
    case InQuotes(cell, text) => PrevQuotesIsLegal(cell, text, max);
    case AtCr(cell) =>
  }

  lemma PrevIsLegal(p: Progress, max: nat)
    requires Valid(p, max) && p != Progress([], [], InCell([])) && 0 < max
    ensures Valid(Prev(p), max) && Legal(Prev(p), max, Last(p))
    ensures Next(Prev(p), Last(p)) == p
  {
    if p.part != InCell([]) {
      PrevPartIsLegal(p.part, max);
    } else if p.cells != [] {
      assert p.cells == p.cells[..|p.cells| - 1] + [p.cells[|p.cells| - 1]];
    } else {
      var row := p.rows[|p.rows| - 1];
      assert p.rows == p.rows[..|p.rows| - 1] + [row];
      assert row == row[..|row| - 1] + [row[|row| - 1]];
    }
  }

  // ---------- Main results

  /** The text of every valid progress is accepted and leads to the state described. */
  lemma {:induction false} DescribedIsReached(c: Config, p: Progress)
    requires Accepting(c.refuse) && Valid(p, c.max) && 0 < c.max
    ensures Run(c, INIT, Text(p)) == Result(Described(p), true)
    decreases |Text(p)|
  {
    if p == Progress([], [], InCell([])) {
      assert Text(p) == [] && Described(p) == INIT;
    } else {
      var q, ch := Prev(p), Last(p);
      PrevIsLegal(p, c.max);
      AllowedStep(c, q, ch);
      DescribedIsReached(c, q);
      RunSplit(c, INIT, Text(q), [ch]);
      assert Run(c, Described(q), [ch]) == Run(c, Described(p), []);
    }
  }

  lemma TextStep(p: Progress, input: seq<char>, max: nat)
    requires Valid(p, max) && input != [] && Legal(p, max, input[0])
    ensures Valid(Next(p, input[0]), max)
    ensures Text(Next(p, input[0])) + input[1..] == Text(p) + input
  {
    NextText(p, input[0], max);
    Shift(Text(p), Text(Next(p, input[0])), input);
  }

  /** A call goes on from the longer progress after a legal byte and ends at any other. */
  lemma RunStep(c: Config, p: Progress, input: seq<char>)
    requires Accepting(c.refuse) && Valid(p, c.max) && 0 < c.max && input != []
    ensures Legal(p, c.max, input[0]) ==>
              Run(c, Described(p), input) == Run(c, Described(Next(p, input[0])), input[1..])
    ensures !Legal(p, c.max, input[0]) ==> !Run(c, Described(p), input).ok
  {
    AllowedStep(c, p, input[0]);
  }

  lemma {:induction false} AcceptedFrom(c: Config, p: Progress, input: seq<char>) returns (q: Progress)
    requires Accepting(c.refuse) && Valid(p, c.max) && 0 < c.max
    requires Run(c, Described(p), input).ok
    ensures Valid(q, c.max) && Text(q) == Text(p) + input
    decreases |input|
  {
    if input == [] {
      q := p;
    } else {
      RunStep(c, p, input);
      TextStep(p, input, c.max);
      q := AcceptedFrom(c, Next(p, input[0]), input[1..]);
    }
  }

  lemma AllowedExactly(c: Config, input: seq<char>)
    requires Accepting(c.refuse) && 0 < c.max
    ensures Run(c, INIT, input).ok <==> exists p: Progress :: Valid(p, c.max) && Text(p) == input
    ensures forall p: Progress :: Valid(p, c.max) && Text(p) == input ==> Run(c, INIT, input).p == Described(p)
  {
    if Run(c, INIT, input).ok {
      var start := Progress([], [], InCell([]));
      assert Described(start) == INIT && Text(start) + input == input;
      var q := AcceptedFrom(c, start, input);
    }
    forall p: Progress | Valid(p, c.max) && Text(p) == input
      ensures Run(c, INIT, input) == Result(Described(p), true)
    {
      DescribedIsReached(c, p);
    }
  }

  /** A call is accepted exactly when its input is the beginning of a document and none of the calls it
      causes is refused; then the state it leaves is the one described.  The calls made are those of
      the document as far as they are heard. */
  lemma AcceptsExactly(c: Config, input: seq<char>)
    requires 0 < c.max
    ensures Run(c, INIT, input).ok <==>
            exists p: Progress :: Valid(p, c.max) && Text(p) == input && Unrefused(c.refuse, Events(p), 0)
    ensures forall p: Progress :: Valid(p, c.max) && Text(p) == input ==>
              && Run(c, INIT, input).p.log == Heard(c.refuse, Events(p), 0)
              && (Unrefused(c.refuse, Events(p), 0) ==> Run(c, INIT, input).p == Described(p))
  {
    AllowedExactly(Permissive(c), input);
    RefusalTruncates(c, INIT, input);
  }

  /** A file: finished rows, then possibly a row without its LF whose last field is empty or ends in
      a bare byte. */
  ghost predicate IsFile(text: seq<char>, p: Progress, max: nat) {
    Valid(p, max) && p.part.InCell? && Open(p.part.cell) && Text(p) == text
  }

  /** The reports of a file.  An empty field at the very end is not one. */
  function FileEvents(p: Progress): seq<Event>
    requires p.part.InCell?
  {
    DocEvents(p.rows) + CellsEvents(|p.rows|, p.cells + if p.part.cell == [] then [] else [p.part.cell])
  }

  /** Finished rows are a file. */
  lemma RowsAreFile(rows: seq<Row>, max: nat)
    requires ValidRows(rows, max) && 0 < max
    ensures var p := Progress(rows, [], InCell([]));
            IsFile(DocText(rows), p, max) && FileEvents(p) == DocEvents(rows)
  {
    assert PartText(InCell([])) == [] && CellsText([]) == [];
    assert DocText(rows) + [] + [] == DocText(rows);
    assert DocEvents(rows) + [] == DocEvents(rows);
  }

  lemma AllowedLoads(c: Config, text: seq<char>)
    requires Accepting(c.refuse) && 0 < c.max
    ensures LoadText(c, text).ok <==> exists p: Progress :: IsFile(text, p, c.max)
    ensures forall p: Progress :: IsFile(text, p, c.max) ==> LoadText(c, text).p.log == FileEvents(p)
  {
    AllowedExactly(c, text);
    if LoadText(c, text).ok {
      var p: Progress :| Valid(p, c.max) && Text(p) == text;
      assert IsFile(text, p, c.max);
    }
    forall p: Progress | IsFile(text, p, c.max)
      ensures LoadText(c, text).ok && LoadText(c, text).p.log == FileEvents(p)
    {
      EofReports(c, p);
    }
  }

  lemma EofReports(c: Config, p: Progress)
    requires Accepting(c.refuse) && p.part.InCell? && Open(p.part.cell)
    ensures Eof(c, Described(p)).ok && Eof(c, Described(p)).p.log == FileEvents(p)
  {
    FieldEvents(p, p.part.cell);
    assert p.cells + [] == p.cells;
  }

  /** Main result: whatever the callbacks answer, csv_load takes exactly the files of this language of
      whose calls none is refused, but for the field of a last row without its LF; and it makes exactly
      the calls for their fields and rows, as far as they are heard. */
  lemma LoadsExactly(c: Config, text: seq<char>)
    requires 0 < c.max
    ensures LoadText(c, text).ok <==>
            exists p: Progress :: IsFile(text, p, c.max) && Unrefused(c.refuse, Events(p), 0)
    ensures forall p: Progress :: IsFile(text, p, c.max) ==>
              LoadText(c, text).p.log == Heard(c.refuse, FileEvents(p), 0)
  {
    var d := Permissive(c);
    AllowedLoads(d, text);
    LoadHeard(c, text);
    AllowedExactly(d, text);
    assert forall p: Progress :: IsFile(text, p, c.max) ==> Valid(p, d.max) && Text(p) == text;
  }

  lemma LfAfterCr(c: Config, p: Progress, rest: seq<char>)
    requires Accepting(c.refuse) && p.part.InCell?
    requires forall i :: 0 <= i < |p.rows| ==> p.rows[i] != []
    ensures Run(c, Described(Next(p, CR)), [LF] + rest) == Result(Described(Next(p, LF)), false)
  {
    RowDescribed(c, Described(Next(p, CR)), p);
    assert ([LF] + rest)[0] == LF;
  }

  /** A row that ends in CR LF is reported and then refused, so no document with such a row outside
      quotes is accepted, although section 2 of RFC 4180 ends rows with CR LF. */
  lemma CrLfRowIsRefused(c: Config, p: Progress, rest: seq<char>)
    requires Accepting(c.refuse) && Valid(p, c.max) && 0 < c.max && p.part.InCell?
    ensures Run(c, INIT, Text(p) + [CR] + ([LF] + rest)) == Result(Described(Next(p, LF)), false)
  {
    var q := Next(p, CR);
    NextText(p, CR, c.max);
    DescribedIsReached(c, q);
    LfAfterCr(c, p, rest);
    RunSplit(c, INIT, Text(q), [LF] + rest);
  }

  // ---------- Inputs that are no beginning of a document

  /** The calls that an illegal byte still causes: the row, if it is the LF behind a CR. */
  function LastEvents(p: Progress, ch: char): seq<Event> {
    if p.part.AtCr? && ch == LF then Events(Next(Progress(p.rows, p.cells, InCell(p.part.cell)), LF)) else Events(p)
  }

  lemma IllegalByte(p: Progress, max: nat, ch: char)
    requires Valid(p, max) && !Legal(p, max, ch) && 0 < max
    ensures var r := Step(Config(AllowAll(), max), Described(p), ch);
            !r.ok && r.p.log == LastEvents(p, ch)
  {
    var c := Config(AllowAll(), max);
    AllowedStep(c, p, ch);
    if p.part.AtCr? && ch == LF {
      RowDescribed(c, Described(p), Progress(p.rows, p.cells, InCell(p.part.cell)));
    } else {
      FailedStepKeepsLog(c, Described(p), ch);
    }
  }

  lemma FailedStepKeepsLog(c: Config, p: Parser, ch: char)
    requires !Step(c, p, ch).ok && (p.s == Newline ==> ch != LF)
    ensures Step(c, p, ch).p.log == p.log
  {
  }

  lemma {:induction false} RunFrom(p: Progress, max: nat, input: seq<char>) returns (q: Progress, rest: seq<char>)
    requires Valid(p, max) && 0 < max
    ensures Valid(q, max) && Text(p) + input == Text(q) + rest
    ensures rest != [] ==> !Legal(q, max, rest[0])
    ensures var r := Run(Config(AllowAll(), max), Described(p), input);
            && (r.ok <==> rest == [])
            && r.p.log == if rest == [] then Events(q) else LastEvents(q, rest[0])
    decreases |input|
  {
    if input == [] || !Legal(p, max, input[0]) {
      q, rest := p, input;
      if input != [] {
        IllegalByte(p, max, input[0]);
      }
    } else {
      RunStep(Config(AllowAll(), max), p, input);
      TextStep(p, input, max);
      q, rest := RunFrom(Next(p, input[0]), max, input[1..]);
    }
  }

  /** Main result: every input splits into the longest beginning of a document and what cannot follow it,
      and the calls made are those of that beginning, and of its row if it ends in CR LF, as far as they
      are heard. */
  lemma EveryRunIsDescribed(c: Config, input: seq<char>) returns (p: Progress, rest: seq<char>)
    requires 0 < c.max
    ensures Valid(p, c.max) && input == Text(p) + rest && (rest != [] ==> !Legal(p, c.max, rest[0]))
    ensures var log := if rest == [] then Events(p) else LastEvents(p, rest[0]);
            && (Run(c, INIT, input).ok <==> rest == [] && Unrefused(c.refuse, log, 0))
            && Run(c, INIT, input).p.log == Heard(c.refuse, log, 0)
  {
    var start := Progress([], [], InCell([]));
    assert Described(start) == INIT && Text(start) + input == input;
    p, rest := RunFrom(start, c.max, input);
    RefusalTruncates(c, INIT, input);
  }
}
