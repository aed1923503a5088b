/** The streaming CSV parser of csv.c. */
module Csv1 {
  import opened Bytes
  import opened CsvReports
  import L = LineStreams

  const BUF_MAX: nat := 1024

  datatype State = S0 | Quoted | QuoteCheck | InField

  /** `buf` holds the bytes before `buf_cur`; `line` and `ofs` are the position for messages. */
  datatype Parser = Parser(state: State, row: nat, col: nat, line: nat, ofs: nat, buf: seq<char>, log: seq<Event>)

  /** `ok` is false when the call returns -1. */
  datatype Result = Result(p: Parser, ok: bool)

  const INIT: Parser := Parser(S0, 0, 0, 1, 0, [], [])

  /** `buf_add` */
  function Add(p: Parser, ch: char): Result {
    if |p.buf| < BUF_MAX - 1 then Result(p.(buf := p.buf + [ch]), true) else Result(p, false)
  }

  /** `data_ready`: the field is reported without the NUL that closes the buffer. */
  function DataReady(refuse: Refusal, p: Parser): Result {
    var log := p.log + [Field(p.row, p.col, p.buf)];
    var closed := if |p.buf| < BUF_MAX then p.buf + [NUL] else p.buf;
    Result(p.(buf := closed, log := log), !refuse(log))
  }

  /** `row_end` and the counters after it */
  function NewRow(p: Parser): Parser {
    p.(log := p.log + [RowEnd(p.row)], row := Inc(p.row), col := 0)
  }

  function Comma(refuse: Refusal, p: Parser): Result {
    var r := DataReady(refuse, p.(state := S0));
    if r.ok then Result(r.p.(col := Inc(r.p.col)), true) else r
  }

  function Newline(refuse: Refusal, p: Parser): Result {
    var r := DataReady(refuse, p.(state := S0));
    if r.ok then Result(NewRow(r.p), true) else r
  }

  /** The position after `ch`. */
  function Advance(p: Parser, ch: char): Parser {
    if ch == LF then p.(line := p.line + 1, ofs := 0) else p.(ofs := p.ofs + 1)
  }

  /** The switch. */
  function Switch(refuse: Refusal, p: Parser, ch: char): Result {
    match p.state
    case S0 =>
      if ch == QUOTE then Result(p.(state := Quoted, buf := []), true)
      else if ch == ',' then Result(p.(col := Inc(p.col)), true)
      else if ch == LF then Result(NewRow(p), true)
      else if IsSpace(ch) then Result(p, true)
      else Add(p.(state := InField, buf := []), ch)
    case Quoted =>
      if ch == QUOTE then Result(p.(state := QuoteCheck), true) else Add(p, ch)
    case QuoteCheck =>
      if ch == QUOTE then Add(p.(state := Quoted), ch)
      else if ch == ',' then Comma(refuse, p)
      else if ch == LF then Newline(refuse, p)
      else if IsSpace(ch) then Result(p.(state := S0), true)
      else Result(p, false)
    case InField =>
      if ch == QUOTE then Add(p, ch)
      else if ch == ',' then Comma(refuse, p)
      else if ch == LF then Newline(refuse, p)
      else if ch == CR then Result(p, true)
      else Add(p, ch)
  }

  /** One byte. */
  function Step(refuse: Refusal, p: Parser, ch: char): Result {
    Switch(refuse, Advance(p, ch), ch)
  }

  /** `csv_push` */
  function Run(refuse: Refusal, p: Parser, input: seq<char>): Result
    decreases |input|
  {
    if input == [] then Result(p, true)
    else
      var r := Step(refuse, p, input[0]);
      if r.ok then Run(refuse, r.p, input[1..]) else r
  }

  /** `csv_eol` */
  function Eol(refuse: Refusal, p: Parser): Result {
    match p.state
    case S0 => Result(p, true)
    case Quoted => Result(p, false)
    case _ =>
      var r := DataReady(refuse, p.(state := S0));
      if r.ok then Result(r.p.(log := r.p.log + [RowEnd(r.p.row)]), true) else r
  }

  /** Calls on successive chunks, stopping at the first that fails. */
  function Feed(refuse: Refusal, p: Parser, chunks: seq<seq<char>>): Result
    decreases |chunks|
  {
    if chunks == [] then Result(p, true)
    else
      var r := Run(refuse, p, chunks[0]);
      if r.ok then Feed(refuse, r.p, chunks[1..]) else r
  }

  /** The parser as one that never completes. */
  function Stepper(refuse: Refusal): (Parser, char) -> L.Verdict<Parser> {
    (p, ch) =>
      var r := Step(refuse, p, ch);
      if r.ok then L.Go(r.p) else L.Fail(r.p)
  }

  lemma {:induction false} RunIsStream(refuse: Refusal, p: Parser, input: seq<char>)
    ensures var r := L.Run(Stepper(refuse), p, input);
            r.outcome != L.Completed && Run(refuse, p, input) == Result(r.s, r.outcome == L.More)
    decreases |input|
  {
    if input != [] && Step(refuse, p, input[0]).ok {
      RunIsStream(refuse, Step(refuse, p, input[0]).p, input[1..]);
    }
  }

  lemma {:induction false} FeedIsStream(refuse: Refusal, p: Parser, chunks: seq<seq<char>>)
    ensures var r := L.Feed(Stepper(refuse), p, chunks);
            r.outcome != L.Completed && Feed(refuse, p, chunks) == Result(r.s, r.outcome == L.More)
    decreases |chunks|
  {
    if chunks != [] {
      RunIsStream(refuse, p, chunks[0]);
      if Run(refuse, p, chunks[0]).ok {
        FeedIsStream(refuse, Run(refuse, p, chunks[0]).p, chunks[1..]);
      }
    }
  }

  /** Two calls against one, with any callback. */
  lemma RunSplit(refuse: Refusal, p: Parser, a: seq<char>, b: seq<char>)
    ensures Run(refuse, p, a + b) ==
            if Run(refuse, p, a).ok then Run(refuse, Run(refuse, p, a).p, b) else Run(refuse, p, a)
  {
    L.RunSplit(Stepper(refuse), p, a, b);
    RunIsStream(refuse, p, a);
    RunIsStream(refuse, p, a + b);
    RunIsStream(refuse, Run(refuse, p, a).p, b);
  }

  /** Main result: whatever the callback answers, the result, the calls made and the final state,
      position for messages included, do not depend on how the bytes are cut into chunks. */
  lemma ChunkIndependence(refuse: Refusal, p: Parser, chunks: seq<seq<char>>)
    ensures Feed(refuse, p, chunks) == Run(refuse, p, Flatten(chunks))
  {
    L.ChunkIndependence(Stepper(refuse), p, chunks);
    FeedIsStream(refuse, p, chunks);
    RunIsStream(refuse, p, Flatten(chunks));
  }

  /** `csv_push` of successive chunks and `csv_eol` */
  function Load(refuse: Refusal, chunks: seq<seq<char>>): Result {
    var r := Feed(refuse, INIT, chunks);
    if r.ok then Eol(refuse, r.p) else r
  }

  // ---------- Refusals

  /** Only the answers to fields are looked at. */
  function FieldAnswers(refuse: Refusal): Refusal {
    (log: seq<Event>) => log != [] && log[|log| - 1].Field? && refuse(log)
  }

  /** Outcomes with the answers heard and with everything allowed. */
  ghost predicate Obeys(refuse: Refusal, before: Parser, r: Result, allowed: Result) {
    var log, from := allowed.p.log, |before.log|;
    && before.log <= log
    && r.p.log == log[..CutAt(FieldAnswers(refuse), log, from)]
    && (Unrefused(FieldAnswers(refuse), log, from) ==> r == allowed)
    && (!Unrefused(FieldAnswers(refuse), log, from) ==> !r.ok)
  }

  lemma QuietObeys(refuse: Refusal, p: Parser, r: Result)
    requires r.p.log == p.log
    ensures Obeys(refuse, p, r, r)
  {
    assert p.log[..|p.log|] == p.log;
  }

  lemma RowEndObeys(refuse: Refusal, p: Parser, r: Result)
    requires r.p.log == p.log + [RowEnd(p.row)]
    ensures Obeys(refuse, p, r, r)
  {
    UnrefusedStep(FieldAnswers(refuse), r.p.log, |p.log|);
    assert r.p.log[..|p.log| + 1] == r.p.log;
  }

  /** A field and perhaps a row end, and nothing but the field if it is refused. */
  lemma FieldObeys(refuse: Refusal, p: Parser, r: Result, allowed: Result, more: seq<Event>)
    requires more == [] || more == [RowEnd(p.row)]
    requires allowed.p.log == p.log + [Field(p.row, p.col, p.buf)] + more
    requires var one := p.log + [Field(p.row, p.col, p.buf)];
             if refuse(one) then !r.ok && r.p.log == one else r == allowed
    ensures Obeys(refuse, p, r, allowed)
  {
    var h, log := FieldAnswers(refuse), allowed.p.log;
    var one := p.log + [Field(p.row, p.col, p.buf)];
    assert log[..|p.log| + 1] == one && one[|p.log|].Field?;
    UnrefusedStep(h, log, |p.log|);
    if more != [] {
      UnrefusedStep(h, log, |p.log| + 1);
      assert log[..|p.log| + 2] == log && log[|p.log| + 1].RowEnd?;
    }
  }

  lemma CommaObeys(refuse: Refusal, p: Parser)
    ensures Obeys(refuse, p, Comma(refuse, p), Comma(AllowAll(), p))
  {
    FieldObeys(refuse, p, Comma(refuse, p), Comma(AllowAll(), p), []);
  }

  lemma NewlineObeys(refuse: Refusal, p: Parser)
    ensures Obeys(refuse, p, Newline(refuse, p), Newline(AllowAll(), p))
  {
    FieldObeys(refuse, p, Newline(refuse, p), Newline(AllowAll(), p), [RowEnd(p.row)]);
  }

  lemma SwitchObeys(refuse: Refusal, p: Parser, ch: char)
    ensures Obeys(refuse, p, Switch(refuse, p, ch), Switch(AllowAll(), p, ch))
  {
    if p.state == S0 && ch == LF {
      RowEndObeys(refuse, p, Switch(refuse, p, ch));
    } else if (p.state == QuoteCheck || p.state == InField) && ch == ',' {
      CommaObeys(refuse, p);
    } else if (p.state == QuoteCheck || p.state == InField) && ch == LF {
      NewlineObeys(refuse, p);
    } else {
      QuietObeys(refuse, p, Switch(refuse, p, ch));
    }
  }

  lemma EolObeys(refuse: Refusal, p: Parser)
    ensures Obeys(refuse, p, Eol(refuse, p), Eol(AllowAll(), p))
  {
    if p.state == S0 || p.state == Quoted {
      QuietObeys(refuse, p, Eol(refuse, p));
    } else {
      FieldObeys(refuse, p, Eol(refuse, p), Eol(AllowAll(), p), [RowEnd(p.row)]);
    }
  }

  /** Two stages, the second of which is left out if the first fails. */
  lemma ObeysThen(refuse: Refusal, p: Parser, mid: Result, mid': Result, r: Result, r': Result)
    requires Obeys(refuse, p, mid, mid')
    requires if mid'.ok then mid'.p.log <= r'.p.log else r' == mid'
    requires if mid.ok then Obeys(refuse, mid.p, r, r') else r == mid
    ensures Obeys(refuse, p, r, r')
  {
    var h := FieldAnswers(refuse);
    CutInPrefix(h, mid'.p.log, r'.p.log, |p.log|);
    if !Unrefused(h, mid'.p.log, |p.log|) {
      var n := CutAt(h, mid'.p.log, |p.log|);
      assert mid'.p.log[..n] == r'.p.log[..n];
    }
  }

  lemma {:induction false} LogGrows(refuse: Refusal, p: Parser, input: seq<char>)
    ensures p.log <= Run(refuse, p, input).p.log
    decreases |input|
  {
    if input != [] && Step(refuse, p, input[0]).ok {
      LogGrows(refuse, Step(refuse, p, input[0]).p, input[1..]);
    }
  }

  /** Main result: the calls made are those that a callback that never refuses would get, up to the
      first refused field; if none is refused nothing changes, and otherwise the call fails. */
  lemma {:induction false} RefusalTruncates(refuse: Refusal, p: Parser, input: seq<char>)
    ensures Obeys(refuse, p, Run(refuse, p, input), Run(AllowAll(), p, input))
    decreases |input|
  {
    if input == [] {
      QuietObeys(refuse, p, Run(refuse, p, input));
    } else {
      var mid, mid' := Step(refuse, p, input[0]), Step(AllowAll(), p, input[0]);
      SwitchObeys(refuse, Advance(p, input[0]), input[0]);
      LogGrows(AllowAll(), mid'.p, input[1..]);
      if mid.ok {
        RefusalTruncates(refuse, mid.p, input[1..]);
      }
      ObeysThen(refuse, p, mid, mid', Run(refuse, p, input), Run(AllowAll(), p, input));
    }
  }

  /** The same for a whole file. */
  lemma LoadObeys(refuse: Refusal, chunks: seq<seq<char>>)
    ensures Obeys(refuse, INIT, Load(refuse, chunks), Load(AllowAll(), chunks))
  {
    var text := Flatten(chunks);
    ChunkIndependence(refuse, INIT, chunks);
    ChunkIndependence(AllowAll(), INIT, chunks);
    RefusalTruncates(refuse, INIT, text);
    var mid, mid' := Run(refuse, INIT, text), Run(AllowAll(), INIT, text);
    EolObeys(refuse, mid.p);
    EolObeys(AllowAll(), mid'.p);
    ObeysThen(refuse, INIT, mid, mid', Load(refuse, chunks), Load(AllowAll(), chunks));
  }

  /** The buffer never holds more than a field and its NUL, and has room for the NUL wherever a
      field may still be reported. */
  predicate Wf(p: Parser) {
    |p.buf| <= BUF_MAX && (p.state != S0 ==> |p.buf| < BUF_MAX)
  }

  lemma {:induction false} RunKeepsWf(refuse: Refusal, p: Parser, input: seq<char>)
    requires Wf(p)
    ensures Wf(Run(refuse, p, input).p)
    decreases |input|
  {
    if input != [] && Step(refuse, p, input[0]).ok {
      RunKeepsWf(refuse, Step(refuse, p, input[0]).p, input[1..]);
    }
  }

  // ---------- The position for messages

  function Lines(s: seq<char>): nat {
    if s == [] then 0 else Lines(s[..|s| - 1]) + if s[|s| - 1] == LF then 1 else 0
  }

  /** The number of bytes after the last LF. */
  function Tail(s: seq<char>): nat {
    if s == [] || s[|s| - 1] == LF then 0 else Tail(s[..|s| - 1]) + 1
  }

  /** The number of bytes that a call reads. */
  function Taken(refuse: Refusal, p: Parser, input: seq<char>): (n: nat)
    ensures n <= |input|
    decreases |input|
  {
    if input == [] then 0
    else
      var r := Step(refuse, p, input[0]);
      1 + if r.ok then Taken(refuse, r.p, input[1..]) else 0
  }

  /** A call reads everything or up to the byte at which it fails. */
  lemma {:induction false} TakenIsExact(refuse: Refusal, p: Parser, input: seq<char>)
    ensures var r, n := Run(refuse, p, input), Taken(refuse, p, input);
            && Run(refuse, p, input[..n]) == r
            && (r.ok ==> n == |input|)
            && (!r.ok ==> 0 < n && Run(refuse, p, input[..n - 1]).ok)
    decreases |input|
  {
    if input != [] && Step(refuse, p, input[0]).ok {
      var q, n := Step(refuse, p, input[0]).p, Taken(refuse, p, input);
      TakenIsExact(refuse, q, input[1..]);
      assert input[..n][1..] == input[1..][..n - 1];
      if n > 1 {
        assert input[..n - 1][1..] == input[1..][..n - 2];
      }
    }
  }

  lemma OneMoreRead(before: seq<char>, input: seq<char>, n: nat)
    requires n < |input|
    ensures before + input[..1 + n] == before + [input[0]] + input[1..][..n]
  {
    assert input[..1 + n] == [input[0]] + input[1..][..n];
    Assoc(before, [input[0]], input[1..][..n]);
  }

  lemma LinesSnoc(s: seq<char>, c: char)
    ensures Lines(s + [c]) == Lines(s) + if c == LF then 1 else 0
    ensures Tail(s + [c]) == if c == LF then 0 else Tail(s) + 1
  {
    assert (s + [c])[..|s|] == s;
  }

  lemma StepPosition(refuse: Refusal, p: Parser, ch: char)
    ensures var q := Step(refuse, p, ch).p;
            && q.line == p.line + (if ch == LF then 1 else 0)
            && q.ofs == if ch == LF then 0 else p.ofs + 1
  {
  }

  /** After any call, accepted or not, the line is one more than the number of LFs read, those in quotes
      included, and the offset counts the bytes since. */
  lemma {:induction false} PositionIsExact(refuse: Refusal, before: seq<char>, p: Parser, input: seq<char>)
    requires p.line == 1 + Lines(before) && p.ofs == Tail(before)
    ensures var q, read := Run(refuse, p, input).p, before + input[..Taken(refuse, p, input)];
            q.line == 1 + Lines(read) && q.ofs == Tail(read)
    decreases |input|
  {
    if input == [] {
      assert before + input == before;
    } else {
      var longer, r := before + [input[0]], Step(refuse, p, input[0]);
      LinesSnoc(before, input[0]);
      StepPosition(refuse, p, input[0]);
      if r.ok {
        PositionIsExact(refuse, longer, r.p, input[1..]);
        OneMoreRead(before, input, Taken(refuse, r.p, input[1..]));
      } else {
        OneMoreRead(before, input, 0);
        assert longer + [] == longer;
      }
    }
  }

  // ---------- The parser

  class CsvParser {
    var state: State
    var row: nat
    var col: nat
    var debugOfs: nat
    var debugLine: nat
    var bufCur: nat
    const buf: array<char>
    const refuse: Refusal
    var log: seq<Event>

    ghost predicate Valid()
      reads this, buf
    {
      buf.Length == BUF_MAX && bufCur <= BUF_MAX && Wf(View())
    }

    ghost function View(): Parser
      requires bufCur <= buf.Length
      reads this, buf
    {
      Parser(state, row, col, debugLine, debugOfs, buf[..bufCur], log)
    }

    /** `csv_init` */
    constructor (refuse: Refusal)
      ensures Valid() && fresh(buf)
      ensures View() == INIT && this.refuse == refuse
    {
      state := S0;
      row, col, debugOfs, debugLine, bufCur := 0, 0, 0, 1, 0;
      buf := new char[BUF_MAX];
      this.refuse := refuse;
      log := [];
    }

    /** `tok_add` */
    method BufAdd(ch: char) returns (ok: bool)
      requires buf.Length == BUF_MAX && bufCur <= BUF_MAX
      modifies this`bufCur, buf
      ensures bufCur <= BUF_MAX
      ensures Result(View(), ok) == Add(old(View()), ch)
    {
      if bufCur < BUF_MAX - 1 {
        buf[bufCur] := ch;
        bufCur := bufCur + 1;
        return true;
      }
      return false;
    }

    /** `data_ready` with `tok_close` */
    method Report() returns (ok: bool)
      requires buf.Length == BUF_MAX && bufCur <= BUF_MAX
      modifies this`bufCur, this`log, buf
      ensures bufCur <= BUF_MAX
      ensures Result(View(), ok) == DataReady(refuse, old(View()))
    {
      log := log + [Field(row, col, buf[..bufCur])];
      if bufCur < BUF_MAX {
        buf[bufCur] := NUL;
        bufCur := bufCur + 1;
      }
      return !refuse(log);
    }

    method EndRow()
      modifies this`log, this`row, this`col
      ensures log == old(log) + [RowEnd(old(row))] && row == Inc(old(row)) && col == 0
    {
      log := log + [RowEnd(row)];
      row := Inc(row);
      col := 0;
    }

    method FieldComma() returns (ok: bool)
      requires buf.Length == BUF_MAX && bufCur <= BUF_MAX
      modifies this, buf
      ensures bufCur <= BUF_MAX
      ensures Result(View(), ok) == Comma(refuse, old(View()))
    {
      state := S0;
      ok := Report();
      if ok {
        col := Inc(col);
      }
    }

    method FieldNewline() returns (ok: bool)
      requires buf.Length == BUF_MAX && bufCur <= BUF_MAX
      modifies this, buf
      ensures bufCur <= BUF_MAX
      ensures Result(View(), ok) == Newline(refuse, old(View()))
    {
      state := S0;
      ok := Report();
      if ok {
        EndRow();
      }
    }

    /** The switch. */
    method TakeByte(ch: char) returns (ok: bool)
      requires buf.Length == BUF_MAX && bufCur <= BUF_MAX
      modifies this, buf
      ensures bufCur <= BUF_MAX
      ensures Result(View(), ok) == Switch(refuse, old(View()), ch)
    {
      ok := true;
      match state {
        case S0 =>
          if ch == QUOTE {
            state := Quoted;
            bufCur := 0;
          } else if ch == ',' {
            col := Inc(col);
          } else if ch == LF {
            EndRow();
          } else if IsSpace(ch) {
          } else {
            state := InField;
            bufCur := 0;
            ok := BufAdd(ch);
          }
        case Quoted =>
          if ch == QUOTE {
            state := QuoteCheck;
          } else {
            ok := BufAdd(ch);
          }
        case QuoteCheck =>
          if ch == QUOTE {
            state := Quoted;
            ok := BufAdd(ch);
          } else if ch == ',' {
            ok := FieldComma();
          } else if ch == LF {
            ok := FieldNewline();
          } else if IsSpace(ch) {
            state := S0;
          } else {
            ok := false;
          }
        case InField =>
          if ch == QUOTE {
            ok := BufAdd(ch);
          } else if ch == ',' {
            ok := FieldComma();
          } else if ch == LF {
            ok := FieldNewline();
          } else if ch == CR {
          } else {
            ok := BufAdd(ch);
          }
      }
    }

    /** The position for messages. */
    method Count(ch: char)
      requires bufCur <= buf.Length
      modifies this`debugOfs, this`debugLine
      ensures View() == Advance(old(View()), ch)
    {
      debugOfs := debugOfs + 1;
      if ch == LF {
        debugLine := debugLine + 1;
        debugOfs := 0;
      }
    }

    /** `csv_push`; true stands for 0. */
    method Push(input: seq<char>) returns (ok: bool)
      requires Valid()
      modifies this, buf
      ensures Valid()
      ensures Result(View(), ok) == Run(refuse, old(View()), input)
    {
      RunKeepsWf(refuse, View(), input);
      var i := 0;
      while i < |input|
        invariant 0 <= i <= |input|
        invariant buf.Length == BUF_MAX && bufCur <= BUF_MAX
        invariant Run(refuse, old(View()), input) == Run(refuse, View(), input[i..])
      {
        assert input[i..][1..] == input[i + 1..];
        Count(input[i]);
        ok := TakeByte(input[i]);
        if !ok {
          return;
        }
        i := i + 1;
      }
      return true;
    }

    /** `csv_eol`; true stands for 0. */
    method AtEol() returns (ok: bool)
      requires Valid()
      modifies this, buf
      ensures Valid()
      ensures Result(View(), ok) == Eol(refuse, old(View()))
    {
      match state {
        case S0 => return true;
        case Quoted => return false;
        case _ =>
          state := S0;
          ok := Report();
          if ok {
            log := log + [RowEnd(row)];
          }
      }
    }
  }
}
