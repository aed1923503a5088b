/** The streaming CSV parser of csv2.c. */
module Csv2 {
  import opened Bytes
  import opened Buffers
  import opened CsvReports

  datatype State = Start | Escaped | EscapedDquote | Unescaped | Newline | Error

  /** The limits of a parser: the callbacks and the size of the field buffer. */
  datatype Config = Config(refuse: Refusal, max: nat)

  datatype Parser = Parser(s: State, row: nat, col: nat, buf: seq<char>, log: seq<Event>)

  /** `ok` is false when the call returns -1. */
  datatype Result = Result(p: Parser, ok: bool)

  const INIT: Parser := Parser(Start, 0, 0, [], [])

  /** `_csv_next_field` */
  function FieldDone(c: Config, p: Parser): Parser {
    var log := p.log + [Field(p.row, p.col, p.buf)];
    if c.refuse(log) then p.(s := Error, log := log)
    else Parser(Start, p.row, Inc(p.col), [], log)
  }

  /** `_csv_next_row`: the end of the row is reported even after a refused field. */
  function RowDone(c: Config, p: Parser): Parser {
    var q := FieldDone(c, p);
    var log := q.log + [RowEnd(q.row)];
    Parser(if c.refuse(log) then Error else q.s, Inc(q.row), 0, q.buf, log)
  }

  /** `buffer_addch` */
  function Add(c: Config, p: Parser, ch: char): Result {
    Result(p.(buf := AddCh(p.buf, c.max, ch)), |p.buf| + 1 < c.max)
  }

  function BareByte(c: Config, p: Parser, ch: char): Result {
    if ch == CR then Result(p.(s := Newline), true)
    else if ch == LF then Result(RowDone(c, p), true)
    else if ch == QUOTE then Result(p.(s := Escaped), true)
    else if ch == ',' then Result(FieldDone(c, p), true)
    else Add(c, p.(s := Unescaped), ch)
  }

  /** One byte. */
  function Step(c: Config, p: Parser, ch: char): Result {
    match p.s
    case Start => BareByte(c, p, ch)
    case Escaped => if ch == QUOTE then Result(p.(s := EscapedDquote), true) else Add(c, p, ch)
    case EscapedDquote =>
      if ch == QUOTE then
        var r := Add(c, p, ch);
        if r.ok then Result(r.p.(s := Escaped), true) else r
      else BareByte(c, p, ch)
    case Unescaped => BareByte(c, p, ch)
    case Newline => Result(if ch == LF then RowDone(c, p) else p, false)
    case Error => Result(p, false)
  }

  /** `csv` */
  function Run(c: Config, p: Parser, input: seq<char>): Result
    decreases |input|
  {
    if input == [] then Result(p, p.s != Error)
    else
      var r := Step(c, p, input[0]);
      if r.ok then Run(c, r.p, input[1..]) else r
  }

  /** `csv_eof`: a refusal of the last field is not reported. */
  function Eof(c: Config, p: Parser): Result {
    match p.s
    case Start => Result(p, true)
    case Unescaped => Result(FieldDone(c, p), true)
    case _ => Result(p, false)
  }

  /** Calls on successive chunks, stopping at the first that fails. */
  function Feed(c: Config, p: Parser, chunks: seq<seq<char>>): Result
    decreases |chunks|
  {
    if chunks == [] then Result(p, p.s != Error)
    else
      var r := Run(c, p, chunks[0]);
      if r.ok then Feed(c, r.p, chunks[1..]) else r
  }

  /** `csv_load` on the contents of a file. */
  function LoadText(c: Config, text: seq<char>): Result {
    var r := Run(c, INIT, text);
    if r.ok then Eof(c, r.p) else r
  }

  /** Two calls against one, with any callbacks. */
  lemma {:induction false} RunSplit(c: Config, p: Parser, a: seq<char>, b: seq<char>)
    ensures Run(c, p, a + b) == if Run(c, p, a).ok then Run(c, Run(c, p, a).p, b) else Run(c, p, a)
    decreases |a|
  {
    if a == [] {
      assert a + b == b;
    } else {
      assert (a + b)[1..] == a[1..] + b;
      if Step(c, p, a[0]).ok {
        RunSplit(c, Step(c, p, a[0]).p, a[1..], b);
      }
    }
  }

  /** Main result: whatever the callbacks answer, the result, the calls made and the final state
      depend on the bytes alone, not on how they are cut into chunks. */
  lemma {:induction false} ChunkIndependence(c: Config, p: Parser, chunks: seq<seq<char>>)
    ensures Feed(c, p, chunks) == Run(c, p, Flatten(chunks))
    decreases |chunks|
  {
    if chunks != [] {
      RunSplit(c, p, chunks[0], Flatten(chunks[1..]));
      if Run(c, p, chunks[0]).ok {
        ChunkIndependence(c, Run(c, p, chunks[0]).p, chunks[1..]);
      }
    }
  }

  // ---------- Refusals

  /** The same parser with callbacks that allow everything. */
  function Permissive(c: Config): (d: Config)
    ensures Accepting(d.refuse) && d.max == c.max
  {
    Config(AllowAll(), c.max)
  }

  /** What is made of the calls when the answers are heard: those up to the first refused one and,
      behind a refused field, the end of its row. */
  function Heard(refuse: Refusal, log: seq<Event>, from: nat): seq<Event>
    requires from <= |log|
  {
    var n := CutAt(refuse, log, from);
    if n < |log| && log[n].RowEnd? then log[..n + 1] else log[..n]
  }

  /** Outcomes with the answers heard and with everything allowed. */
  ghost predicate Obeys(c: Config, before: Parser, r: Result, allowed: Result) {
    var log, from := allowed.p.log, |before.log|;
    && before.log <= log
    && r.p.log == Heard(c.refuse, log, from)
    && (Unrefused(c.refuse, log, from) ==> r == allowed)
    && (!Unrefused(c.refuse, log, from) ==> r.p.s == Error)
  }

  lemma FieldObeys(c: Config, p: Parser, ok: bool)
    ensures Obeys(c, p, Result(FieldDone(c, p), ok), Result(FieldDone(Permissive(c), p), ok))
  {
    var log := p.log + [Field(p.row, p.col, p.buf)];
    UnrefusedStep(c.refuse, log, |p.log|);
    assert log[..|p.log| + 1] == log;
  }

  lemma RowObeys(c: Config, p: Parser, ok: bool)
    ensures Obeys(c, p, Result(RowDone(c, p), ok), Result(RowDone(Permissive(c), p), ok))
  {
    var one := p.log + [Field(p.row, p.col, p.buf)];
    var two := one + [RowEnd(p.row)];
    UnrefusedStep(c.refuse, two, |p.log|);
    UnrefusedStep(c.refuse, two, |p.log| + 1);
    assert two[..|p.log| + 1] == one && two[..|p.log| + 2] == two;
    assert two[|p.log| + 1] == RowEnd(p.row);
  }

  lemma QuietObeys(c: Config, p: Parser, r: Result)
    requires r.p.log == p.log
    ensures Obeys(c, p, r, r)
  {
    assert p.log[..|p.log|] == p.log;
  }

  lemma BareObeys(c: Config, p: Parser, ch: char)
    ensures Obeys(c, p, BareByte(c, p, ch), BareByte(Permissive(c), p, ch))
    ensures BareByte(c, p, ch).ok == BareByte(Permissive(c), p, ch).ok
  {
    if ch == LF {
      RowObeys(c, p, true);
    } else if ch == ',' {
      FieldObeys(c, p, true);
    } else {
      QuietObeys(c, p, BareByte(c, p, ch));
    }
  }

  lemma StepObeys(c: Config, p: Parser, ch: char)
    ensures Obeys(c, p, Step(c, p, ch), Step(Permissive(c), p, ch))
    ensures Step(c, p, ch).ok == Step(Permissive(c), p, ch).ok
  {
    if p.s == Start || p.s == Unescaped || (p.s == EscapedDquote && ch != QUOTE) {
      BareObeys(c, p, ch);
    } else if p.s == Newline && ch == LF {
      RowObeys(c, p, false);
    } else {
      QuietObeys(c, p, Step(c, p, ch));
    }
  }

  /** The calls of a step or a whole run come behind the earlier ones, first a field. */
  lemma {:induction false} FieldFirst(c: Config, p: Parser, input: seq<char>)
    ensures p.log <= Run(c, p, input).p.log
    ensures |p.log| < |Run(c, p, input).p.log| ==> Run(c, p, input).p.log[|p.log|].Field?
    decreases |input|
  {
    if input != [] {
      StepFieldFirst(c, p, input[0]);
      if Step(c, p, input[0]).ok {
        FieldFirst(c, Step(c, p, input[0]).p, input[1..]);
      }
    }
  }

  lemma StepFieldFirst(c: Config, p: Parser, ch: char)
    ensures var log := Step(c, p, ch).p.log;
            p.log <= log && (|p.log| < |log| ==> log[|p.log|].Field?)
  {
  }

  lemma ErrorStays(c: Config, p: Parser, input: seq<char>)
    requires p.s == Error
    ensures Run(c, p, input) == Result(p, false)
  {
  }

  /** After a refusal nothing more is called. */
  lemma HeardInPrefix(refuse: Refusal, part: seq<Event>, log: seq<Event>, from: nat)
    requires from <= |part| && part <= log && (|part| < |log| ==> log[|part|].Field?)
    requires !Unrefused(refuse, part, from)
    ensures !Unrefused(refuse, log, from) && Heard(refuse, log, from) == Heard(refuse, part, from)
  {
    CutInPrefix(refuse, part, log, from);
  }

  /** Main result: the calls made are those that callbacks that never refuse would get, up to the first
      refused one and the row end that follows a refused field; if none is refused nothing changes,
      and otherwise the call fails. */
  lemma {:induction false} RefusalTruncates(c: Config, p: Parser, input: seq<char>)
    ensures Obeys(c, p, Run(c, p, input), Run(Permissive(c), p, input))
    ensures !Unrefused(c.refuse, Run(Permissive(c), p, input).p.log, |p.log|) ==> !Run(c, p, input).ok
    decreases |input|
  {
    if input == [] {
      QuietObeys(c, p, Run(c, p, input));
    } else {
      var d := Permissive(c);
      var q, q' := Step(c, p, input[0]).p, Step(d, p, input[0]).p;
      StepObeys(c, p, input[0]);
      if Step(c, p, input[0]).ok {
        var log := Run(d, q', input[1..]).p.log;
        FieldFirst(d, q', input[1..]);
        if q.s == Error && !Unrefused(c.refuse, q'.log, |p.log|) {
          ErrorStays(c, q, input[1..]);
          HeardInPrefix(c.refuse, q'.log, log, |p.log|);
        } else {
          RefusalTruncates(c, q, input[1..]);
          CutInPrefix(c.refuse, q'.log, log, |p.log|);
        }
      } else {
        RefusedStepFails(c, p, input);
      }
    }
  }

  lemma RefusedStepFails(c: Config, p: Parser, input: seq<char>)
    requires input != [] && !Step(c, p, input[0]).ok
    ensures Run(c, p, input) == Step(c, p, input[0])
  {
  }

  /** A whole file: the same, except that a refusal of a field that ends with the file is ignored. */
  lemma LoadHeard(c: Config, text: seq<char>)
    ensures var d := Permissive(c);
            && LoadText(c, text).p.log == Heard(c.refuse, LoadText(d, text).p.log, 0)
            && (LoadText(c, text).ok <==> LoadText(d, text).ok && Unrefused(c.refuse, Run(d, INIT, text).p.log, 0))
  {
    var d := Permissive(c);
    var p := Run(d, INIT, text).p;
    var log := LoadText(d, text).p.log;
    RefusalTruncates(c, INIT, text);
    CutInPrefix(c.refuse, p.log, log, 0);
    if !Unrefused(c.refuse, p.log, 0) {
      HeardInPrefix(c.refuse, p.log, log, 0);
    } else if p.s == Unescaped {
      FieldObeys(c, p, true);
    } else {
      QuietObeys(c, p, Result(p, true));
    }
  }

  // ---------- The parser

  class CsvParser {
    var s: State
    var row: nat
    var col: nat
    const buf: Buffer
    const refuse: Refusal
    var log: seq<Event>

    ghost predicate Valid()
      reads this, buf, buf.data
    {
      buf.Terminated()
    }

    ghost function View(): Parser
      requires buf.Valid()
      reads this, buf, buf.data
    {
      Parser(s, row, col, buf.Contents(), log)
    }

    ghost function Limits(): Config
      reads this
    {
      Config(refuse, buf.max)
    }

    /** `csv_init` */
    constructor (fieldbufMax: nat, refuse: Refusal)
      requires 0 < fieldbufMax
      ensures Valid() && fresh(buf) && fresh(buf.data)
      ensures View() == INIT && Limits() == Config(refuse, fieldbufMax)
    {
      buf := new Buffer(fieldbufMax);
      this.refuse := refuse;
      s := Start;
      row, col := 0, 0;
      log := [];
    }

    /** `_csv_next_field` */
    method NextField()
      requires Valid()
      modifies this, buf, buf.data
      ensures Valid()
      ensures View() == FieldDone(Limits(), old(View()))
    {
      log := log + [Field(row, col, buf.data[..buf.cur])];
      if refuse(log) {
        s := Error;
        return;
      }
      s := Start;
      col := Inc(col);
      buf.Reset();
    }

    /** `_csv_next_row` */
    method NextRow()
      requires Valid()
      modifies this, buf, buf.data
      ensures Valid()
      ensures View() == RowDone(Limits(), old(View()))
    {
      NextField();
      log := log + [RowEnd(row)];
      if refuse(log) {
        s := Error;
      }
      col := 0;
      row := Inc(row);
    }

    /** The cases that `goto unescaped` and the states Start, EscapedDquote and Unescaped share. */
    method TakeBare(ch: char) returns (ok: bool)
      requires Valid()
      modifies this, buf, buf.data
      ensures Valid()
      ensures Result(View(), ok) == BareByte(Limits(), old(View()), ch)
    {
      ok := true;
      if ch == CR {
        s := Newline;
      } else if ch == LF {
        NextRow();
      } else if ch == QUOTE {
        s := Escaped;
      } else if ch == ',' {
        NextField();
      } else {
        s := Unescaped;
        ok := buf.Add(ch);
      }
    }

    /** The body of the loop: one byte. */
    method TakeByte(ch: char) returns (ok: bool)
      requires Valid()
      modifies this, buf, buf.data
      ensures Valid()
      ensures Result(View(), ok) == Step(Limits(), old(View()), ch)
    {
      ok := true;
      match s {
        case Start =>
          ok := TakeBare(ch);
        case Escaped =>
          if ch == QUOTE {
            s := EscapedDquote;
          } else {
            ok := buf.Add(ch);
          }
        case EscapedDquote =>
          if ch == QUOTE {
            ok := buf.Add(ch);
            if ok {
              s := Escaped;
            }
          } else {
            ok := TakeBare(ch);
          }
        case Unescaped =>
          ok := TakeBare(ch);
        case Newline =>
          if ch == LF {
            NextRow();
          }
          ok := false;
        case Error =>
          ok := false;
      }
    }

    /** `csv`; true stands for 0. */
    method Parse(input: seq<char>) returns (ok: bool)
      requires Valid()
      modifies this, buf, buf.data
      ensures Valid()
      ensures Result(View(), ok) == Run(Limits(), old(View()), input)
    {
      var i := 0;
      while i < |input|
        invariant 0 <= i <= |input|
        invariant Valid()
        invariant Run(Limits(), old(View()), input) == Run(Limits(), View(), input[i..])
      {
        assert input[i..][1..] == input[i + 1..];
        ok := TakeByte(input[i]);
        if !ok {
          return;
        }
        i := i + 1;
      }
      return s != Error;
    }

    /** `csv_eof`; true stands for 0. */
    method AtEof() returns (ok: bool)
      requires Valid()
      modifies this, buf, buf.data
      ensures Valid()
      ensures Result(View(), ok) == Eof(Limits(), old(View()))
    {
      match s {
        case Start => return true;
        case Unescaped =>
          NextField();
          return true;
        case _ => return false;
      }
    }
  }

  const FIELDBUF_MAX: nat := 4096

  /** `csv_load`, with the file replaced by the pieces that fread returns. */
  method Load(refuse: Refusal, chunks: seq<seq<char>>) returns (ok: bool, log: seq<Event>)
    ensures var r := LoadText(Config(refuse, 4096), Flatten(chunks));
            ok == r.ok && log == r.p.log
  {
    var cp := new CsvParser(FIELDBUF_MAX, refuse);
    ghost var c := cp.Limits();
    ChunkIndependence(c, INIT, chunks);
    var i := 0;
    while i < |chunks|
      invariant 0 <= i <= |chunks|
      invariant cp.Valid() && fresh(cp) && fresh(cp.buf) && fresh(cp.buf.data) && cp.Limits() == c
      invariant Feed(c, INIT, chunks) == Feed(c, cp.View(), chunks[i..])
      invariant cp.s != Error
    {
      assert chunks[i..][1..] == chunks[i + 1..];
      OkIsNotError(c, cp.View(), chunks[i]);
      ok := cp.Parse(chunks[i]);
      if !ok {
        return ok, cp.log;
      }
      i := i + 1;
    }
    ok := cp.AtEof();
    return ok, cp.log;
  }

  lemma OkIsNotError(c: Config, p: Parser, input: seq<char>)
    ensures Run(c, p, input).ok ==> Run(c, p, input).p.s != Error
    decreases |input|
  {
    if input != [] && Step(c, p, input[0]).ok {
      OkIsNotError(c, Step(c, p, input[0]).p, input[1..]);
    }
  }
}
