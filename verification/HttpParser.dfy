/** The resumable HTTP request parser of httpparser.c.

    `Step` and `Run` say what one byte and one call do to the parser's value; class `HttpParser`
    is the parser itself, which packs both strings of a report into one fixed array. */
module HttpParsing {
  import opened Bytes

  const TOK_MAX: nat := 4096

  datatype State =
    | RequestLineMethod
    | UriFirstChar
    | Uri
    | HttpVersion
    | RequestLineEnd
    | FieldNameFirstChar
    | FieldName
    | FieldValueFirstChar
    | FieldValue
    | HeaderEol
    | BlankLine
    | Data

  /** The calls made to the four callbacks. */
  datatype Event =
    | Method(verb: seq<char>, uri: seq<char>)
    | Header(name: seq<char>, value: seq<char>)
    | HeaderDone
    | Body(bytes: seq<char>)

  /** The value of a parser: `tok` holds the live bytes of the token array. */
  datatype Hp = Hp(state: State, tok: seq<char>, second: nat, log: seq<Event>)

  /** `ok` is false when the call returns -1. */
  datatype Result = Result(hp: Hp, ok: bool)

  const INIT: Hp := Hp(RequestLineMethod, [], 0, [])

  function Add(hp: Hp, ch: char): Result {
    if |hp.tok| < TOK_MAX then Result(hp.(tok := hp.tok + [ch]), true) else Result(hp, false)
  }

  function AddThen(hp: Hp, ch: char, next: State): Result {
    var r := Add(hp, ch);
    if r.ok then Result(r.hp.(state := next), true) else r
  }

  function From(tok: seq<char>, second: nat): seq<char> {
    if second <= |tok| then tok[second..] else []
  }

  function Emit(hp: Hp, e: Event): Hp {
    hp.(log := hp.log + [e])
  }

  /** One byte outside the body. */
  function Step(hp: Hp, ch: char): Result {
    match hp.state
    case RequestLineMethod =>
      if ch == CR || ch == LF then Result(hp, false)
      else if ch == SP then AddThen(hp, NUL, UriFirstChar)
      else Add(hp, ch)
    case UriFirstChar =>
      if ch == SP || ch == CR || ch == LF then Result(hp, false)
      else AddThen(hp.(second := |hp.tok|), ch, Uri)
    case Uri =>
      if ch == SP then
        var r := Add(hp, NUL);
        if !r.ok then r
        else
          var e := Method(CStr(r.hp.tok), CStr(From(r.hp.tok, r.hp.second)));
          Result(Emit(r.hp, e).(tok := [], state := HttpVersion), true)
      else if ch == CR then Result(hp.(state := RequestLineEnd), true)
      else if ch == LF then Result(hp, false)
      else Add(hp, ch)
    case HttpVersion =>
      Result(if ch == CR then hp.(state := RequestLineEnd) else hp, true)
    case RequestLineEnd =>
      if ch != LF then Result(hp, false) else Result(hp.(state := FieldNameFirstChar), true)
    case FieldNameFirstChar =>
      if ch == CR then Result(hp.(state := BlankLine), true)
      else if ch == LF || ch == ':' then Result(hp, false)
      else AddThen(hp.(tok := []), ch, FieldName)
    case FieldName =>
      if ch == CR || ch == LF then Result(hp, false)
      else if ch == ':' then AddThen(hp, NUL, FieldValueFirstChar)
      else Add(hp, ch)
    case FieldValueFirstChar =>
      if ch == CR then Result(Emit(hp, Header(CStr(hp.tok), [])), true)
      else if ch == LF then Result(hp, false)
      else if IsSpace(ch) then Result(hp, true)
      else AddThen(hp.(second := |hp.tok|), ch, FieldValue)
    case FieldValue =>
      if ch == CR then
        var r := Add(hp, NUL);
        if !r.ok then r
        else Result(Emit(r.hp, Header(CStr(r.hp.tok), CStr(From(r.hp.tok, r.hp.second)))).(state := HeaderEol), true)
      else if ch == LF then Result(hp, false)
      else Add(hp, ch)
    case HeaderEol =>
      if ch != LF then Result(hp, false) else Result(hp.(state := FieldNameFirstChar), true)
    case BlankLine =>
      if ch != LF then Result(hp, false) else Result(Emit(hp, HeaderDone).(state := Data), true)
    case Data => Result(Emit(hp, Body([ch])), true)
  }

  /** Which bytes a state takes, `used` being the length of the token. */
  predicate Accepts(state: State, used: nat, ch: char) {
    match state
    case RequestLineMethod => ch != CR && ch != LF && used < TOK_MAX
    case UriFirstChar => ch != SP && ch != CR && ch != LF && used < TOK_MAX
    case Uri => ch != LF && (ch == CR || used < TOK_MAX)
    case HttpVersion => true
    case RequestLineEnd => ch == LF
    case FieldNameFirstChar => ch != LF && ch != ':'
    case FieldName => ch != CR && ch != LF && used < TOK_MAX
    case FieldValueFirstChar => ch != LF && (IsSpace(ch) || used < TOK_MAX)
    case FieldValue => ch != LF && used < TOK_MAX
    case HeaderEol => ch == LF
    case BlankLine => ch == LF
    case Data => true
  }

  lemma StepOkIffAccepts(hp: Hp, ch: char)
    ensures Step(hp, ch).ok <==> Accepts(hp.state, |hp.tok|, ch)
  {
  }

  /** One call. */
  function Run(hp: Hp, input: seq<char>): Result
    decreases |input|
  {
    if input == [] then Result(hp, true)
    else if hp.state == Data then Result(Emit(hp, Body(input)), true)
    else
      var r := Step(hp, input[0]);
      if r.ok then Run(r.hp, input[1..]) else r
  }

  /** What holds of every parser that `httpparser_init` and earlier calls have produced: the token
      fits, and wherever a report is still to come the first string is already terminated and the
      second one starts right after that NUL. */
  predicate Wf(hp: Hp) {
    && |hp.tok| <= TOK_MAX
    && (hp.state == UriFirstChar || hp.state == FieldValueFirstChar ==> hp.tok != [] && hp.tok[|hp.tok| - 1] == NUL)
    && (hp.state == Uri || hp.state == FieldValue ==> 0 < hp.second < |hp.tok| && hp.tok[hp.second - 1] == NUL)
  }

  lemma StepKeepsWf(hp: Hp, ch: char)
    requires Wf(hp)
    ensures Wf(Step(hp, ch).hp)
  {
  }

  /** Every reachable state is well formed, whatever the bytes and whether or not the call fails. */
  lemma {:induction false} RunKeepsWf(hp: Hp, input: seq<char>)
    requires Wf(hp)
    ensures Wf(Run(hp, input).hp)
    decreases |input|
  {
    if input != [] && hp.state != Data {
      StepKeepsWf(hp, input[0]);
      if Step(hp, input[0]).ok {
        RunKeepsWf(Step(hp, input[0]).hp, input[1..]);
      }
    }
  }

  /** Both strings of a closed token, read from the memory around it. */
  lemma LiveStrings(live: seq<char>, mem: seq<char>, second: nat)
    requires live <= mem && second < |live| && live[|live| - 1] == NUL
    ensures CStr(mem) == CStr(live) && CStr(mem[second..]) == CStr(From(live, second))
  {
    CStrStopsAtNul(live, mem);
    assert live[second..][|live| - 1 - second] == NUL;
    CStrStopsAtNul(live[second..], mem[second..]);
  }

  class HttpParser {
    var state: State
    var curTok: nat
    var secondTok: nat
    const tok: array<char>
    /** The callbacks made so far. */
    var log: seq<Event>

    ghost predicate Valid()
      reads this, tok
    {
      && tok.Length == TOK_MAX
      && curTok <= TOK_MAX
      && Wf(View())
    }

    ghost function View(): Hp
      requires curTok <= tok.Length
      reads this, tok
    {
      Hp(state, tok[..curTok], secondTok, log)
    }

    constructor ()
      ensures Valid() && fresh(tok)
      ensures View() == INIT
    {
      state := RequestLineMethod;
      curTok, secondTok := 0, 0;
      tok := new char[TOK_MAX];
      log := [];
    }

    /** `tok_add` */
    method TokAdd(ch: char) returns (ok: bool)
      requires tok.Length == TOK_MAX && curTok <= TOK_MAX
      modifies this`curTok, tok
      ensures curTok <= TOK_MAX
      ensures Result(View(), ok) == Add(old(View()), ch)
    {
      if curTok < tok.Length {
        tok[curTok] := ch;
        curTok := curTok + 1;
        return true;
      }
      return false;
    }

    /** Terminate the second string, and read both strings of the report from the whole array,
        each up to its first NUL.  They do not depend on the bytes past the live ones. */
    method CloseStrings() returns (ok: bool, first: seq<char>, second: seq<char>)
      requires tok.Length == TOK_MAX && curTok <= TOK_MAX
      requires 0 < secondTok <= curTok && tok[secondTok - 1] == NUL
      modifies this`curTok, tok
      ensures curTok <= TOK_MAX
      ensures Result(View(), ok) == Add(old(View()), NUL)
      ensures ok ==> first == CStr(View().tok) && second == CStr(From(View().tok, secondTok))
    {
      first, second := [], [];
      ok := TokAdd(NUL);
      if ok {
        first, second := CStr(tok[..]), CStr(tok[secondTok..]);
        LiveStrings(tok[..curTok], tok[..], secondTok);
        assert tok[..][secondTok..] == tok[secondTok..];
      }
    }

    /** The string at the start of the array, when the live bytes end with its NUL. */
    method FirstString() returns (first: seq<char>)
      requires tok.Length == TOK_MAX && 0 < curTok <= TOK_MAX && tok[curTok - 1] == NUL
      ensures first == CStr(View().tok)
    {
      first := CStr(tok[..]);
      assert View().tok[curTok - 1] == NUL;
      CStrStopsAtNul(View().tok, tok[..]);
    }

    predicate InRequestLine()
      reads this
    {
      state in {RequestLineMethod, UriFirstChar, Uri, HttpVersion, RequestLineEnd}
    }

    /** The case of the bytes in the URI. */
    method UriByte(ch: char) returns (ok: bool)
      requires Valid() && state == Uri
      modifies this, tok
      ensures curTok <= TOK_MAX
      ensures Result(View(), ok) == Step(old(View()), ch)
    {
      if ch == SP {
        var verb, uri;
        ok, verb, uri := CloseStrings();
        if !ok { return; }
        log := log + [Method(verb, uri)];
        curTok := 0;
        state := HttpVersion;
      } else if ch == CR {
        state := RequestLineEnd;
        return true;
      } else if ch == LF {
        return false;
      } else {
        ok := TokAdd(ch);
      }
    }

    /** The first five cases of the switch. */
    method RequestLineByte(ch: char) returns (ok: bool)
      requires Valid() && InRequestLine()
      modifies this, tok
      ensures Valid()
      ensures Result(View(), ok) == Step(old(View()), ch)
    {
      StepKeepsWf(View(), ch);
      ok := true;
      match state {
        case RequestLineMethod =>
          if ch == CR || ch == LF {
            return false;
          } else if ch == SP {
            ok := TokAdd(NUL);
            if !ok { return; }
            state := UriFirstChar;
          } else {
            ok := TokAdd(ch);
          }
        case UriFirstChar =>
          if ch == SP || ch == CR || ch == LF {
            return false;
          }
          secondTok := curTok;
          ok := TokAdd(ch);
          if !ok { return; }
          state := Uri;
        case Uri =>
          ok := UriByte(ch);
        case HttpVersion =>
          if ch == CR {
            state := RequestLineEnd;
          }
        case RequestLineEnd =>
          if ch != LF {
            return false;
          }
          state := FieldNameFirstChar;
      }
    }

    /** The cases of the switch up to the colon. */
    method NameByte(ch: char) returns (ok: bool)
      requires tok.Length == TOK_MAX && curTok <= TOK_MAX
      requires state == FieldNameFirstChar || state == FieldName
      modifies this, tok
      ensures curTok <= TOK_MAX
      ensures Result(View(), ok) == Step(old(View()), ch)
    {
      ok := true;
      if state == FieldNameFirstChar {
        if ch == CR {
          state := BlankLine;
        } else if ch == LF || ch == ':' {
          return false;
        } else {
          curTok := 0;
          ok := TokAdd(ch);
          if !ok { return; }
          state := FieldName;
        }
      } else {
        if ch == CR || ch == LF {
          return false;
        } else if ch == ':' {
          ok := TokAdd(NUL);
          if !ok { return; }
          state := FieldValueFirstChar;
        } else {
          ok := TokAdd(ch);
        }
      }
    }

    /** The case of the byte that may start the value. */
    method ValueFirstByte(ch: char) returns (ok: bool)
      requires Valid() && state == FieldValueFirstChar
      modifies this, tok
      ensures curTok <= TOK_MAX
      ensures Result(View(), ok) == Step(old(View()), ch)
    {
      if ch == CR {
        var name := FirstString();
        log := log + [Header(name, [])];
      } else if ch == LF {
        return false;
      } else if IsSpace(ch) {
      } else {
        secondTok := curTok;
        ok := TokAdd(ch);
        if !ok { return; }
        state := FieldValue;
      }
      return true;
    }

    /** The case of the bytes that follow it. */
    method ValueByte(ch: char) returns (ok: bool)
      requires Valid() && state == FieldValue
      modifies this, tok
      ensures curTok <= TOK_MAX
      ensures Result(View(), ok) == Step(old(View()), ch)
    {
      if ch == CR {
        var name, value;
        ok, name, value := CloseStrings();
        if !ok { return; }
        log := log + [Header(name, value)];
        state := HeaderEol;
      } else if ch == LF {
        return false;
      } else {
        ok := TokAdd(ch);
      }
    }

    /** The remaining cases of the switch. */
    method HeaderByte(ch: char) returns (ok: bool)
      requires Valid() && !InRequestLine() && state != Data
      modifies this, tok
      ensures Valid()
      ensures Result(View(), ok) == Step(old(View()), ch)
    {
      StepKeepsWf(View(), ch);
      match state {
        case FieldNameFirstChar =>
          ok := NameByte(ch);
        case FieldName =>
          ok := NameByte(ch);
        case FieldValueFirstChar =>
          ok := ValueFirstByte(ch);
        case FieldValue =>
          ok := ValueByte(ch);
        case HeaderEol =>
          if ch != LF {
            return false;
          }
          state := FieldNameFirstChar;
          return true;
        case BlankLine =>
          if ch != LF {
            return false;
          }
          log := log + [HeaderDone];
          state := Data;
          return true;
      }
    }

    /** `httpparser`: true stands for 0 and false for -1. */
    method Parse(buf: seq<char>) returns (ok: bool)
      requires Valid()
      modifies this, tok
      ensures Valid()
      ensures Result(View(), ok) == Run(old(View()), buf)
    {
      var i := 0;
      while i < |buf|
        invariant 0 <= i <= |buf|
        invariant Valid()
        invariant Run(old(View()), buf) == Run(View(), buf[i..])
      {
        assert buf[i..][1..] == buf[i + 1..];
        if state == Data {
          log := log + [Body(buf[i..])];
          return true;
        }
        if InRequestLine() {
          ok := RequestLineByte(buf[i]);
        } else {
          ok := HeaderByte(buf[i]);
        }
        if !ok {
          return;
        }
        i := i + 1;
      }
      return true;
    }
  }
}
