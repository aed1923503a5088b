/** The resumable header parser of victory.c, headers_parse, with folded continuation lines. */
module Headers {
  import opened Bytes
  import opened Buffers
  import opened LineStreams

  datatype State = FirstChar | ReadName | ReadPad | AfterColon | BeforeValue | InValue | AfterCr | AtEndCr

  /** A call of env_set. */
  datatype EnvSet = EnvSet(name: seq<char>, value: seq<char>)

  /** The sizes of the two buffers. */
  datatype Sizes = Sizes(name: nat, value: nat)

  datatype Hs = Hs(state: State, done: bool, name: seq<char>, value: seq<char>, log: seq<EnvSet>)

  const INIT: Hs := Hs(FirstChar, false, [], [], [])

  predicate IsBlank(c: char) {
    c == SP || c == TAB
  }

  /** The call that passes on a field, made only if there is a name. */
  function Deferred(name: seq<char>, value: seq<char>): seq<EnvSet> {
    if name == [] then [] else [EnvSet(CStr(name), CStr(value))]
  }

  function Flush(hs: Hs): Hs {
    hs.(log := hs.log + Deferred(hs.name, hs.value))
  }

  function AddName(z: Sizes, hs: Hs, ch: char): Hs {
    hs.(name := AddCh(hs.name, z.name, ch))
  }

  function AddValue(z: Sizes, hs: Hs, ch: char): Hs {
    hs.(value := AddCh(hs.value, z.value, ch), state := InValue)
  }

  /** One byte. */
  function Step(z: Sizes, hs: Hs, ch: char): Verdict<Hs> {
    match hs.state
    case FirstChar =>
      if ch == CR then Go(Flush(hs).(state := AtEndCr))
      else if IsBlank(ch) then Go(hs.(state := InValue))
      else Go(AddName(z, Flush(hs).(name := [], value := [], state := ReadName), ch))
    case ReadName =>
      if IsBlank(ch) then Go(hs.(state := ReadPad))
      else if ch == ':' then Go(hs.(state := AfterColon))
      else if IsSpace(ch) then Fail(hs)
      else Go(AddName(z, hs, ch))
    case ReadPad =>
      if IsBlank(ch) then Go(hs)
      else if ch == ':' then Go(hs.(state := AfterColon))
      else Fail(hs)
    case AfterColon =>
      if IsBlank(ch) then Go(hs.(state := BeforeValue)) else Go(AddValue(z, hs, ch))
    case BeforeValue =>
      if IsBlank(ch) then Go(hs)
      else if IsSpace(ch) then Fail(hs)
      else Go(AddValue(z, hs, ch))
    case InValue =>
      if ch == CR then Go(hs.(state := AfterCr)) else Go(AddValue(z, hs, ch))
    case AfterCr =>
      if ch == LF then Go(hs.(state := FirstChar)) else Fail(hs)
    case AtEndCr =>
      if ch == LF then Complete(hs.(done := true)) else Fail(hs)
  }

  /** The parser with buffers of given sizes. */
  function Stepper(z: Sizes): (Hs, char) -> Verdict<Hs> {
    (hs, ch) => Step(z, hs, ch)
  }

  // ---------- The parser

  class HeadersParser {
    var state: State
    var done: bool
    const name: Buffer
    const value: Buffer
    /** The calls of env_set made so far. */
    var log: seq<EnvSet>

    ghost predicate Valid()
      reads this, name, name.data, value, value.data
    {
      name.Terminated() && value.Terminated() && name != value && name.data != value.data
    }

    ghost function View(): Hs
      requires name.Valid() && value.Valid()
      reads this, name, name.data, value, value.data
    {
      Hs(state, done, name.Contents(), value.Contents(), log)
    }

    ghost function Limits(): Sizes {
      Sizes(name.max, value.max)
    }

    /** `hs_init` with two fresh buffers */
    constructor (nameMax: nat, valueMax: nat)
      requires 0 < nameMax && 0 < valueMax
      ensures Valid() && View() == INIT && Limits() == Sizes(nameMax, valueMax)
      ensures fresh(name) && fresh(name.data) && fresh(value) && fresh(value.data)
    {
      state, done, log := FirstChar, false, [];
      name := new Buffer(nameMax);
      value := new Buffer(valueMax);
    }

    /** The string in a buffer, up to its first NUL. */
    method StringOf(bu: Buffer) returns (s: seq<char>)
      requires bu.Terminated()
      ensures s == CStr(bu.Contents())
    {
      s := CStr(bu.data[..]);
      ghost var live := bu.data[..bu.cur + 1];
      assert live == bu.Contents() + [NUL];
      assert live[bu.cur] == NUL;
      CStrStopsAtNul(live, bu.data[..]);
      CStrOfTerminated(bu.Contents());
    }

    /** Pass on the field read so far. */
    method PassOn()
      requires Valid()
      modifies this`log
      ensures View() == Flush(old(View()))
    {
      if name.cur != 0 {
        var n := StringOf(name);
        var v := StringOf(value);
        log := log + [EnvSet(n, v)];
      }
    }

    /** The first character of a line. */
    method TakeFirst(ch: char)
      requires Valid() && state == FirstChar
      modifies this, name, name.data, value, value.data
      ensures Valid() && Step(Limits(), old(View()), ch) == Go(View())
    {
      if ch == CR {
        PassOn();
        state := AtEndCr;
      } else if ch == SP || ch == TAB {
        state := InValue;
      } else {
        PassOn();
        name.Reset();
        value.Reset();
        var added := name.Add(ch);
        state := ReadName;
      }
    }

    /** The switch: more input is wanted, the block is complete, or it is refused. */
    method TakeByte(ch: char) returns (complete: bool, ok: bool)
      requires Valid()
      modifies this, name, name.data, value, value.data
      ensures Valid()
      ensures Step(Limits(), old(View()), ch) ==
              if !ok then Fail(View()) else if complete then Complete(View()) else Go(View())
    {
      complete, ok := false, true;
      var added;
      match state {
        case FirstChar =>
          TakeFirst(ch);
        case ReadName =>
          if ch == SP || ch == TAB {
            state := ReadPad;
          } else if ch == ':' {
            state := AfterColon;
          } else if IsSpace(ch) {
            ok := false;
          } else {
            added := name.Add(ch);
          }
        case ReadPad =>
          if ch == SP || ch == TAB {
          } else if ch == ':' {
            state := AfterColon;
          } else {
            ok := false;
          }
        case AfterColon =>
          if ch == SP || ch == TAB {
            state := BeforeValue;
          } else {
            added := value.Add(ch);
            state := InValue;
          }
        case BeforeValue =>
          if ch == SP || ch == TAB {
          } else if IsSpace(ch) {
            ok := false;
          } else {
            added := value.Add(ch);
            state := InValue;
          }
        case InValue =>
          if ch == CR { state := AfterCr; } else { added := value.Add(ch); }
        case AfterCr =>
          if ch == LF { state := FirstChar; } else { ok := false; }
        case AtEndCr =>
          if ch == LF { done, complete := true, true; } else { ok := false; }
      }
    }

    /** The body of the loop: byte `i` of the input. */
    method Round(ch: char, ghost input: seq<char>, ghost i: nat) returns (complete: bool, ok: bool)
      requires Valid() && i < |input| && input[i] == ch
      modifies this, name, name.data, value, value.data
      ensures Valid()
      ensures done == (old(done) || (ok && complete))
      ensures Run(Stepper(Limits()), old(View()), input[i..]) ==
              if ok && !complete then Run(Stepper(Limits()), View(), input[i + 1..])
              else Result(View(), input[i + 1..], if ok then Completed else Failed)
    {
      RunAt(Stepper(Limits()), View(), input, i);
      complete, ok := TakeByte(ch);
    }

    /** `headers_parse` on the bytes in `bu`; true stands for 0. */
    method Parse(bu: Buffer) returns (ok: bool)
      requires Valid() && bu.Valid()
      requires bu != name && bu != value && bu.data != name.data && bu.data != value.data
      modifies this, name, name.data, value, value.data, bu, bu.data
      ensures Valid() && bu.Valid()
      ensures var r := Run(Stepper(Limits()), old(View()), old(bu.Contents()));
              && View() == r.s && bu.Contents() == r.rest
              && ok == (r.outcome != Failed)
              && (!old(done) ==> done == (r.outcome == Completed))
    {
      var i := 0;
      ghost var input := bu.Contents();
      ok := true;
      while i < bu.cur
        invariant 0 <= i <= bu.cur && Valid() && bu.Valid() && bu.Contents() == input
        invariant ok && done == old(done)
        invariant Run(Stepper(Limits()), old(View()), input) == Run(Stepper(Limits()), View(), input[i..])
      {
        var complete;
        complete, ok := Round(bu.data[i], input, i);
        i := i + 1;
        if !ok || complete {
          bu.Consume(i);
          return;
        }
      }
      bu.Consume(i);
    }
  }
}
