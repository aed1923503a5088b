/** Tables printed as RFC 4180 text with LF row ends, and what the two parsers make of them. */
module CsvTables {
  import opened Bytes
  import opened CsvReports
  import opened C2 = Csv2Grammar
  import P2 = Csv2
  import G1 = Csv1Grammar
  import P1 = Csv1

  /** A field and the way it is written. */
  datatype Cell = InQuotes(text: seq<char>) | AsIs(text: seq<char>)

  type Row = seq<Cell>

  // ---------- Printing

  function PrintCell(cell: Cell): seq<char> {
    match cell
    case InQuotes(text) => [QUOTE] + Doubled(text) + [QUOTE]
    case AsIs(text) => text
  }

  /** Fields that are followed by a comma. */
  function PrintCells(cells: seq<Cell>): seq<char> {
    if cells == [] then [] else PrintCells(cells[..|cells| - 1]) + (PrintCell(cells[|cells| - 1]) + [','])
  }

  function PrintRow(row: Row): seq<char>
    requires row != []
  {
    PrintCells(row[..|row| - 1]) + PrintCell(row[|row| - 1]) + [LF]
  }

  function Print(table: seq<Row>): seq<char>
    requires forall i :: 0 <= i < |table| ==> table[i] != []
  {
    if table == [] then [] else Print(table[..|table| - 1]) + PrintRow(table[|table| - 1])
  }

  // ---------- Expected reports

  function CellsReports(row: nat, cells: seq<Cell>): seq<Event> {
    if cells == [] then []
    else CellsReports(row, cells[..|cells| - 1]) + [Field(Num(row), Num(|cells| - 1), cells[|cells| - 1].text)]
  }

  function Reports(table: seq<Row>): seq<Event> {
    if table == [] then []
    else Reports(table[..|table| - 1]) + CellsReports(|table| - 1, table[|table| - 1]) + [RowEnd(Num(|table| - 1))]
  }

  // ---------- csv2.c

  /** A bare field may be anything without a quote, a comma, a CR or a LF, the empty string too. */
  predicate Legal2(cell: Cell, max: nat) {
    |cell.text| < max && (cell.AsIs? ==> All(cell.text, BareChar))
  }

  predicate LegalCells2(cells: seq<Cell>, max: nat) {
    forall j :: 0 <= j < |cells| ==> Legal2(cells[j], max)
  }

  predicate LegalTable2(table: seq<Row>, max: nat) {
    forall i :: 0 <= i < |table| ==> table[i] != [] && LegalCells2(table[i], max)
  }

  function BarePieces(s: seq<char>): C2.Cell {
    if s == [] then [] else BarePieces(s[..|s| - 1]) + [Bare(s[|s| - 1])]
  }

  function Pieces(cell: Cell): C2.Cell {
    match cell
    case InQuotes(text) => [Quoted(text)]
    case AsIs(text) => BarePieces(text)
  }

  function Cells2(cells: seq<Cell>): seq<C2.Cell> {
    if cells == [] then [] else Cells2(cells[..|cells| - 1]) + [Pieces(cells[|cells| - 1])]
  }

  function Rows2(table: seq<Row>): (rows: seq<C2.Row>)
    ensures |rows| == |table|
  {
    if table == [] then [] else Rows2(table[..|table| - 1]) + [Cells2(table[|table| - 1])]
  }

  lemma {:induction false} BareText(s: seq<char>)
    ensures CellText(BarePieces(s)) == s && CellValue(BarePieces(s)) == s
    ensures Open(BarePieces(s))
  {
    if s != [] {
      var init, last := s[..|s| - 1], s[|s| - 1];
      assert s == init + [last];
      BareText(init);
      CellSnoc(BarePieces(init), Bare(last));
    }
  }

  lemma {:induction false} BareCell(s: seq<char>, max: nat)
    requires All(s, BareChar) && |s| < max
    ensures ValidCell(BarePieces(s), max)
  {
    if s != [] {
      var init, last := s[..|s| - 1], s[|s| - 1];
      AllPrefix(init, s, BareChar);
      BareCell(init, max);
      BareText(init);
      ValidCellSnoc(BarePieces(init), Bare(last), max);
      assert BareChar(s[|s| - 1]);
    }
  }

  lemma CellIn2(cell: Cell, max: nat)
    requires Legal2(cell, max)
    ensures CellText(Pieces(cell)) == PrintCell(cell) && CellValue(Pieces(cell)) == cell.text
    ensures ValidCell(Pieces(cell), max)
  {
    match cell
    case AsIs(text) =>
      BareText(text);
      BareCell(text, max);
    case InQuotes(text) =>
      CellSnoc([], Quoted(text));
      ValidCellSnoc([], Quoted(text), max);
      assert [] + [Quoted(text)] == [Quoted(text)];
  }

  lemma {:induction false} CellsIn2(cells: seq<Cell>, row: nat, max: nat)
    requires LegalCells2(cells, max)
    ensures |Cells2(cells)| == |cells| && ValidCells(Cells2(cells), max)
    ensures CellsText(Cells2(cells)) == PrintCells(cells)
    ensures CellsEvents(row, Cells2(cells)) == CellsReports(row, cells)
    ensures cells != [] ==> C2.RowText(Cells2(cells)) == PrintRow(cells)
  {
    if cells != [] {
      var init, last := cells[..|cells| - 1], cells[|cells| - 1];
      CellsIn2(init, row, max);
      CellIn2(last, max);
      CellsSnoc(Cells2(init), Pieces(last), row);
      C2.RowSnoc(Cells2(init), Pieces(last));
    }
  }

  lemma {:induction false} RowsAreValid2(table: seq<Row>, max: nat)
    requires LegalTable2(table, max)
    ensures ValidRows(Rows2(table), max)
  {
    if table != [] {
      RowsAreValid2(table[..|table| - 1], max);
      CellsIn2(table[|table| - 1], 0, max);
    }
  }

  lemma {:induction false} TableTextIn2(table: seq<Row>, max: nat)
    requires LegalTable2(table, max)
    ensures ValidRows(Rows2(table), max) && C2.DocText(Rows2(table)) == Print(table)
  {
    RowsAreValid2(table, max);
    if table != [] {
      var init, last := table[..|table| - 1], table[|table| - 1];
      TableTextIn2(init, max);
      CellsIn2(last, 0, max);
      C2.RowsSnoc(Rows2(init), Cells2(last));
    }
  }

  lemma {:induction false} TableReportsIn2(table: seq<Row>, max: nat)
    requires LegalTable2(table, max)
    ensures C2.DocEvents(Rows2(table)) == Reports(table)
  {
    if table != [] {
      var init, last := table[..|table| - 1], table[|table| - 1];
      TableTextIn2(init, max);
      TableReportsIn2(init, max);
      CellsIn2(last, |init|, max);
      C2.RowsSnoc(Rows2(init), Cells2(last));
    }
  }

  lemma TableIsFile2(table: seq<Row>, max: nat)
    requires LegalTable2(table, max) && 0 < max
    ensures var p := Progress(Rows2(table), [], InCell([]));
            IsFile(Print(table), p, max) && FileEvents(p) == Reports(table)
  {
    TableTextIn2(table, max);
    TableReportsIn2(table, max);
    C2.RowsAreFile(Rows2(table), max);
  }

  /** Main result: csv2.c reads every printed table back, with the right row and column numbers,
      whatever its fields contain. */
  lemma RoundTrip2(c: P2.Config, table: seq<Row>)
    requires Accepting(c.refuse) && 0 < c.max && LegalTable2(table, c.max)
    ensures P2.LoadText(c, Print(table)).ok
    ensures P2.LoadText(c, Print(table)).p.log == Reports(table)
  {
    TableIsFile2(table, c.max);
    AllowedLoads(c, Print(table));
  }

  // ---------- csv.c

  /** The buffer is smaller, and a bare field is bare for both parsers. */
  predicate Short(cell: Cell) {
    |cell.text| < P1.BUF_MAX && (cell.AsIs? ==> All(cell.text, BareChar))
  }

  predicate ShortCells(cells: seq<Cell>) {
    forall j :: 0 <= j < |cells| ==> Short(cells[j])
  }

  predicate ShortTable(table: seq<Row>) {
    forall i :: 0 <= i < |table| ==> table[i] != [] && ShortCells(table[i])
  }

  /** csv.c reports a bare field as it is only if it is not empty and does not start with white space. */
  predicate Visible(cell: Cell) {
    cell.AsIs? ==> cell.text != [] && !IsSpace(cell.text[0])
  }

  predicate VisibleCells(cells: seq<Cell>) {
    forall j :: 0 <= j < |cells| ==> Visible(cells[j])
  }

  predicate VisibleTable(table: seq<Row>) {
    forall i :: 0 <= i < |table| ==> VisibleCells(table[i])
  }

  /** The number of white-space bytes at the front. */
  function Lead(s: seq<char>): (n: nat)
    ensures n <= |s| && All(s[..n], IsSpace)
    ensures n < |s| ==> !IsSpace(s[n])
  {
    if s == [] || !IsSpace(s[0]) then 0
    else
      var n := Lead(s[1..]);
      assert forall i :: 0 < i < n + 1 ==> s[i] == s[1..][i - 1];
      n + 1
  }

  function Blanks(s: seq<char>): seq<G1.Drop> {
    if s == [] then [] else Blanks(s[..|s| - 1]) + [G1.Blank(s[|s| - 1])]
  }

  function SlotOf(cell: Cell): G1.Slot {
    match cell
    case InQuotes(text) => G1.Slot([], G1.InQuotes(text))
    case AsIs(text) =>
      var n := Lead(text);
      G1.Slot(Blanks(text[..n]), if n == |text| then G1.Nothing else G1.Plain(text[n..]))
  }

  function Slots1(cells: seq<Cell>): seq<G1.Slot> {
    if cells == [] then [] else Slots1(cells[..|cells| - 1]) + [SlotOf(cells[|cells| - 1])]
  }

  function Rows1(table: seq<Row>): (rows: seq<G1.Row>)
    ensures |rows| == |table|
  {
    if table == [] then [] else Rows1(table[..|table| - 1]) + [Slots1(table[|table| - 1])]
  }

  lemma {:induction false} PlainText(s: seq<char>)
    requires All(s, BareChar)
    ensures G1.WithoutCr(s) == s && All(s, G1.PlainChar)
  {
    if s != [] {
      var init, last := s[..|s| - 1], s[|s| - 1];
      assert s == init + [last];
      AllSnoc(init, last, BareChar);
      PlainText(init);
      AllSnoc(init, last, G1.PlainChar);
    }
  }

  lemma {:induction false} BlanksText(s: seq<char>)
    requires All(s, G1.DropChar)
    ensures G1.DropsText(Blanks(s)) == s && G1.ValidDrops(Blanks(s))
  {
    if s != [] {
      var init, last := s[..|s| - 1], s[|s| - 1];
      DropLast(s, G1.DropChar);
      BlanksText(init);
      G1.DropsSnoc(Blanks(init), G1.Blank(last));
      G1.ValidDropsSnoc(Blanks(init), G1.Blank(last));
    }
  }

  lemma SpacesAreDropped(s: seq<char>)
    requires All(s, IsSpace) && All(s, BareChar)
    ensures All(s, G1.DropChar)
  {
    forall i | 0 <= i < |s| ensures G1.DropChar(s[i]) {
      assert IsSpace(s[i]) && BareChar(s[i]);
    }
  }

  /** White space at the front of a bare field, and the rest of it. */
  lemma BareLead(text: seq<char>)
    requires All(text, BareChar)
    ensures G1.DropsText(Blanks(text[..Lead(text)])) == text[..Lead(text)]
    ensures G1.ValidDrops(Blanks(text[..Lead(text)]))
  {
    var lead := text[..Lead(text)];
    AllPrefix(lead, text, BareChar);
    SpacesAreDropped(lead);
    BlanksText(lead);
  }

  lemma BareRest(text: seq<char>)
    requires All(text, BareChar)
    ensures G1.WithoutCr(text[Lead(text)..]) == text[Lead(text)..]
    ensures All(text[Lead(text)..], G1.PlainChar)
    ensures Lead(text) < |text| ==> text[Lead(text)] != QUOTE
  {
    var n := Lead(text);
    AllSuffix(text, n, BareChar);
    PlainText(text[n..]);
    if n < |text| {
      assert BareChar(text[n]);
    }
  }

  lemma CellIn1(cell: Cell)
    requires Short(cell)
    ensures G1.SlotText(SlotOf(cell)) == PrintCell(cell) && G1.ValidSlot(SlotOf(cell))
  {
    match cell
    case AsIs(text) =>
      BareLead(text);
      BareRest(text);
      SplitAt(text, Lead(text));
    case InQuotes(text) => assert [] + G1.QuotedText(text) == G1.QuotedText(text);
  }

  lemma {:induction false} SlotsAreValid(cells: seq<Cell>)
    requires ShortCells(cells)
    ensures |Slots1(cells)| == |cells| && G1.ValidSlots(Slots1(cells))
  {
    if cells != [] {
      SlotsAreValid(cells[..|cells| - 1]);
      CellIn1(cells[|cells| - 1]);
    }
  }

  lemma {:induction false} CellsIn1(cells: seq<Cell>)
    requires ShortCells(cells)
    ensures |Slots1(cells)| == |cells| && G1.ValidSlots(Slots1(cells))
    ensures G1.SlotsText(Slots1(cells)) == PrintCells(cells)
    ensures cells != [] ==> G1.RowText(Slots1(cells)) == PrintRow(cells)
  {
    SlotsAreValid(cells);
    if cells != [] {
      var init, last := cells[..|cells| - 1], cells[|cells| - 1];
      CellsIn1(init);
      CellIn1(last);
      G1.SlotsSnoc(Slots1(init), SlotOf(last), 0);
      G1.RowSnoc(Slots1(init), SlotOf(last));
    }
  }

  lemma {:induction false} RowsAreValid1(table: seq<Row>)
    requires ShortTable(table)
    ensures G1.ValidRows(Rows1(table))
  {
    if table != [] {
      RowsAreValid1(table[..|table| - 1]);
      CellsIn1(table[|table| - 1]);
    }
  }

  lemma {:induction false} TableTextIn1(table: seq<Row>)
    requires ShortTable(table)
    ensures G1.ValidRows(Rows1(table)) && G1.DocText(Rows1(table)) == Print(table)
  {
    RowsAreValid1(table);
    if table != [] {
      var init, last := table[..|table| - 1], table[|table| - 1];
      TableTextIn1(init);
      CellsIn1(last);
      G1.RowsSnoc(Rows1(init), Slots1(last));
    }
  }

  // What is reported, cell by cell.

  lemma BareAgrees(text: seq<char>)
    requires All(text, BareChar)
    ensures var item := SlotOf(AsIs(text)).item;
            !item.Nothing? && G1.ItemValue(item) == text <==> Visible(AsIs(text))
  {
    var n := Lead(text);
    BareRest(text);
    if n == 0 {
      assert text[0..] == text;
    } else {
      assert |text[n..]| < |text|;
    }
  }

  lemma CellAgrees(row: nat, col: nat, cell: Cell)
    requires Short(cell)
    ensures |G1.SlotEvents(row, col, SlotOf(cell))| <= 1
    ensures G1.SlotEvents(row, col, SlotOf(cell)) == [Field(Num(row), Num(col), cell.text)] <==> Visible(cell)
  {
    if cell.AsIs? {
      BareAgrees(cell.text);
    }
    var item := SlotOf(cell).item;
    if !item.Nothing? {
      assert G1.SlotEvents(row, col, SlotOf(cell))[0] == Field(Num(row), Num(col), G1.ItemValue(item));
    }
  }

  lemma AgreeThen<T>(a: seq<T>, b: seq<T>, x: seq<T>, y: seq<T>)
    requires |a| <= |b| && |x| <= |y|
    ensures a + x == b + y <==> a == b && x == y
  {
    if a + x == b + y {
      assert a == (a + x)[..|a|] && b == (b + y)[..|b|];
      assert x == (a + x)[|a|..] && y == (b + y)[|b|..];
    }
  }

  lemma VisibleSnoc(cells: seq<Cell>)
    requires cells != []
    ensures VisibleCells(cells) <==> VisibleCells(cells[..|cells| - 1]) && Visible(cells[|cells| - 1])
  {
  }

  lemma {:induction false} CellsAgree(row: nat, cells: seq<Cell>)
    requires ShortCells(cells)
    ensures |G1.SlotsEvents(row, Slots1(cells))| <= |CellsReports(row, cells)|
    ensures G1.SlotsEvents(row, Slots1(cells)) == CellsReports(row, cells) <==> VisibleCells(cells)
  {
    if cells != [] {
      var init, last := cells[..|cells| - 1], cells[|cells| - 1];
      CellsAgree(row, init);
      SlotsAreValid(init);
      CellAgrees(row, |init|, last);
      G1.SlotsSnoc(Slots1(init), SlotOf(last), row);
      AgreeThen(G1.SlotsEvents(row, Slots1(init)), CellsReports(row, init),
                G1.SlotEvents(row, |init|, SlotOf(last)), [Field(Num(row), Num(|init|), last.text)]);
      VisibleSnoc(cells);
    }
  }

  lemma EventsOfRows1(table: seq<Row>)
    requires table != []
    ensures var init, last := table[..|table| - 1], table[|table| - 1];
            G1.DocEvents(Rows1(table)) ==
            G1.DocEvents(Rows1(init)) + G1.SlotsEvents(|init|, Slots1(last)) + [RowEnd(Num(|init|))]
  {
    var rows, row := Rows1(table[..|table| - 1]), Slots1(table[|table| - 1]);
    assert (rows + [row])[..|rows|] == rows;
  }

  lemma VisibleTableSnoc(table: seq<Row>)
    requires table != []
    ensures VisibleTable(table) <==> VisibleTable(table[..|table| - 1]) && VisibleCells(table[|table| - 1])
  {
  }

  lemma {:induction false} TableAgrees(table: seq<Row>)
    requires ShortTable(table)
    ensures |G1.DocEvents(Rows1(table))| <= |Reports(table)|
    ensures G1.DocEvents(Rows1(table)) == Reports(table) <==> VisibleTable(table)
  {
    if table != [] {
      var init, last := table[..|table| - 1], table[|table| - 1];
      TableAgrees(init);
      RowAgrees(init, last);
      EventsOfRows1(table);
      VisibleTableSnoc(table);
    }
  }

  lemma RowAgrees(init: seq<Row>, last: Row)
    requires ShortTable(init) && last != [] && ShortCells(last)
    requires |G1.DocEvents(Rows1(init))| <= |Reports(init)|
    requires G1.DocEvents(Rows1(init)) == Reports(init) <==> VisibleTable(init)
    ensures var row := |init|;
            var got := G1.DocEvents(Rows1(init)) + G1.SlotsEvents(row, Slots1(last)) + [RowEnd(Num(row))];
            var all := Reports(init) + CellsReports(row, last) + [RowEnd(Num(row))];
            |got| <= |all| && (got == all <==> VisibleTable(init) && VisibleCells(last))
  {
    var row := |init|;
    var end := [RowEnd(Num(row))];
    var got, all := G1.DocEvents(Rows1(init)), Reports(init);
    var more, cells := G1.SlotsEvents(row, Slots1(last)), CellsReports(row, last);
    CellsAgree(row, last);
    AgreeThen(got, all, more, cells);
    AgreeThen(got + more, all + cells, end, end);
  }

  lemma TableIsFile1(table: seq<Row>)
    requires ShortTable(table)
    ensures var p := G1.Progress(Rows1(table), [], G1.Ready(G1.EMPTY_SLOT));
            G1.IsFile(Print(table), p) && G1.FileEvents(p) == G1.DocEvents(Rows1(table))
  {
    TableTextIn1(table);
    G1.RowsAreFile(Rows1(table));
  }

  /** csv.c takes every such table, however its text is cut, and reads it back exactly if all its fields
      are visible. */
  lemma RoundTrip1(refuse: Refusal, table: seq<Row>, chunks: seq<seq<char>>)
    requires Accepting(refuse) && ShortTable(table) && Flatten(chunks) == Print(table)
    ensures P1.Load(refuse, chunks).ok
    ensures P1.Load(refuse, chunks).p.log == Reports(table) <==> VisibleTable(table)
  {
    TableIsFile1(table);
    TableAgrees(table);
    G1.AllowedLoads(refuse, chunks);
  }

  /** Main result: both parsers take every table that fits both, however each of them is given the text,
      and they make the same calls exactly if no bare field is empty or starts with white space. */
  lemma ParsersAgree(c: P2.Config, table: seq<Row>, chunks1: seq<seq<char>>, chunks2: seq<seq<char>>)
    requires Accepting(c.refuse) && 0 < c.max && ShortTable(table) && LegalTable2(table, c.max)
    requires Flatten(chunks1) == Print(table) && Flatten(chunks2) == Print(table)
    ensures var r1, r2 := P1.Load(c.refuse, chunks1), P2.Feed(c, P2.INIT, chunks2);
            && r1.ok && r2.ok && P2.Eof(c, r2.p).ok
            && (r1.p.log == P2.Eof(c, r2.p).p.log <==> VisibleTable(table))
  {
    RoundTrip1(c.refuse, table, chunks1);
    RoundTrip2(c, table);
    P2.ChunkIndependence(c, P2.INIT, chunks2);
  }
}
