/** Resumable parsers that stop at the end of what they are looking for: the calling convention that
    methodline_parse and headers_parse of victory.c share. */
module LineStreams {
  import opened Bytes

  /** One byte: more is wanted, all has been read, or the byte is refused. */
  datatype Verdict<S> = Go(s: S) | Complete(s: S) | Fail(s: S)

  datatype Outcome = More | Completed | Failed

  /** The state after a call and the bytes left in the input buffer; the call returns -1 if it failed
      and has set `done` if it completed. */
  datatype Result<S> = Result(s: S, rest: seq<char>, outcome: Outcome)

  /** One call. */
  function Run<S>(step: (S, char) -> Verdict<S>, s: S, input: seq<char>): Result<S>
    decreases |input|
  {
    if input == [] then Result(s, [], More)
    else
      match step(s, input[0])
      case Go(s') => Run(step, s', input[1..])
      case Complete(s') => Result(s', input[1..], Completed)
      case Fail(s') => Result(s', input[1..], Failed)
  }

  /** One round of the loop of a call. */
  lemma RunAt<S>(step: (S, char) -> Verdict<S>, s: S, input: seq<char>, i: nat)
    requires i < |input|
    ensures Run(step, s, input[i..]) ==
            match step(s, input[i])
            case Go(s') => Run(step, s', input[i + 1..])
            case Complete(s') => Result(s', input[i + 1..], Completed)
            case Fail(s') => Result(s', input[i + 1..], Failed)
  {
    assert input[i..][1..] == input[i + 1..];
  }

  /** Calls on successive chunks until one completes or fails; `rest` includes what was not fed. */
  function Feed<S>(step: (S, char) -> Verdict<S>, s: S, chunks: seq<seq<char>>): Result<S>
    decreases |chunks|
  {
    if chunks == [] then Result(s, [], More)
    else
      var r := Run(step, s, chunks[0]);
      if r.outcome == More then Feed(step, r.s, chunks[1..])
      else Result(r.s, r.rest + Flatten(chunks[1..]), r.outcome)
  }

  /** A call that wants more has used its input up; what others leave is the end of it. */
  lemma {:induction false} RunLeaves<S>(step: (S, char) -> Verdict<S>, s: S, input: seq<char>)
    ensures var r := Run(step, s, input);
            && (r.outcome == More ==> r.rest == [])
            && |r.rest| <= |input| && r.rest == input[|input| - |r.rest|..]
    decreases |input|
  {
    if input != [] && step(s, input[0]).Go? {
      var r := Run(step, s, input);
      RunLeaves(step, step(s, input[0]).s, input[1..]);
      assert input[1..][|input| - 1 - |r.rest|..] == input[|input| - |r.rest|..];
    }
  }

  lemma {:induction false} RunSplit<S>(step: (S, char) -> Verdict<S>, s: S, a: seq<char>, b: seq<char>)
    ensures var r := Run(step, s, a);
            Run(step, s, a + b) ==
            if r.outcome == More then Run(step, r.s, b) else Result(r.s, r.rest + b, r.outcome)
    decreases |a|
  {
    if a == [] {
      assert a + b == b;
    } else {
      assert (a + b)[1..] == a[1..] + b;
      if step(s, a[0]).Go? {
        RunSplit(step, step(s, a[0]).s, a[1..], b);
      }
    }
  }

  /** Main result: however the input is cut, the outcome, the state and what is left behind are the
      same. */
  lemma {:induction false} ChunkIndependence<S>(step: (S, char) -> Verdict<S>, s: S, chunks: seq<seq<char>>)
    ensures Feed(step, s, chunks) == Run(step, s, Flatten(chunks))
    decreases |chunks|
  {
    if chunks != [] {
      var r := Run(step, s, chunks[0]);
      RunSplit(step, s, chunks[0], Flatten(chunks[1..]));
      if r.outcome == More {
        ChunkIndependence(step, r.s, chunks[1..]);
      }
    }
  }
}
