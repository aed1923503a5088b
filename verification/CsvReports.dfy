/** What the two CSV parsers have in common: the calls they make and the quoting of RFC 4180. */
module CsvReports {
  import opened Bytes

  /** The calls made to the callbacks; a field carries the row, the column and the bytes. */
  datatype Event = Field(row: nat, col: nat, text: seq<char>) | RowEnd(row: nat)

  /** The answer of the callbacks to the last of the calls made so far: true refuses. */
  type Refusal = seq<Event> -> bool

  /** No call is ever refused. */
  ghost predicate Accepting(refuse: Refusal) {
    forall log :: !refuse(log)
  }

  /** No call after the first `from` is refused. */
  predicate Unrefused(refuse: Refusal, log: seq<Event>, from: nat) {
    forall n :: from < n <= |log| ==> !refuse(log[..n])
  }

  /** The number of calls up to the first refused one after the first `from`, that one included. */
  function CutAt(refuse: Refusal, log: seq<Event>, from: nat): (n: nat)
    requires from <= |log|
    ensures from <= n <= |log|
    ensures forall m :: from < m < n ==> !refuse(log[..m])
    ensures n < |log| ==> refuse(log[..n])
    ensures Unrefused(refuse, log, from) ==> n == |log|
    decreases |log| - from
  {
    if from == |log| then from
    else if refuse(log[..from + 1]) then from + 1
    else CutAt(refuse, log, from + 1)
  }

  lemma UnrefusedStep(refuse: Refusal, log: seq<Event>, from: nat)
    requires from < |log|
    ensures Unrefused(refuse, log, from) <==> !refuse(log[..from + 1]) && Unrefused(refuse, log, from + 1)
  {
  }

  /** The first refusal in a log is the one in its beginning, or else the one behind that. */
  lemma {:induction false} CutInPrefix(refuse: Refusal, part: seq<Event>, log: seq<Event>, from: nat)
    requires from <= |part| && part <= log
    ensures Unrefused(refuse, log, from) <==> Unrefused(refuse, part, from) && Unrefused(refuse, log, |part|)
    ensures CutAt(refuse, log, from) ==
            if Unrefused(refuse, part, from) then CutAt(refuse, log, |part|) else CutAt(refuse, part, from)
    decreases |part| - from
  {
    if from < |part| {
      assert part[..from + 1] == log[..from + 1];
      UnrefusedStep(refuse, part, from);
      UnrefusedStep(refuse, log, from);
      if !refuse(part[..from + 1]) {
        CutInPrefix(refuse, part, log, from + 1);
      }
    }
  }

  /** Callbacks that allow everything. */
  function AllowAll(): (r: Refusal)
    ensures Accepting(r)
  {
    _ => false
  }

  const QUOTE: char := '\"'

  /** Quotes are doubled inside a quoted run. */
  function Doubled(s: seq<char>): seq<char> {
    if s == [] then []
    else Doubled(s[..|s| - 1]) + if s[|s| - 1] == QUOTE then [QUOTE, QUOTE] else [s[|s| - 1]]
  }

  lemma DoubledSnoc(s: seq<char>, c: char)
    ensures Doubled(s + [c]) == Doubled(s) + if c == QUOTE then [QUOTE, QUOTE] else [c]
  {
    assert (s + [c])[..|s|] == s;
  }

  /** Row and column numbers are 32 bits wide. */
  function Num(n: nat): nat {
    n % 0x1_0000_0000
  }

  lemma IncNum(n: nat)
    ensures Inc(Num(n)) == Num(n + 1)
  {
  }
}
