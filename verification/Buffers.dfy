/** The bounded buffer of buffer.c. */
module Buffers {
  import opened Bytes

  /** `buffer_addch` on the contents: one byte of the `max` is kept for the NUL. */
  function AddCh(s: seq<char>, max: nat, ch: char): seq<char> {
    if |s| + 1 >= max then s else s + [ch]
  }

  /** The contents of a buffer to which `s` was added byte by byte, ignoring refusals. */
  function Kept(s: seq<char>, max: nat): seq<char> {
    if |s| < max then s else if max == 0 then [] else s[..max - 1]
  }

  /** Adding to what was kept is keeping what was added. */
  lemma KeptSnoc(s: seq<char>, max: nat, ch: char)
    requires max > 0
    ensures AddCh(Kept(s, max), max, ch) == Kept(s + [ch], max)
  {
    if |s| + 1 >= max {
      assert (s + [ch])[..max - 1] == s[..max - 1];
    }
  }

  class Buffer {
    const max: nat
    var cur: nat
    const data: array<char>

    ghost predicate Valid()
      reads this
    {
      data.Length == max && 0 < max && cur <= max
    }

    /** The contents are followed by a NUL. */
    ghost predicate Terminated()
      reads this, data
    {
      Valid() && cur < max && data[cur] == NUL
    }

    ghost function Contents(): seq<char>
      requires Valid()
      reads this, data
    {
      data[..cur]
    }

    /** `buffer_init` over a fresh array */
    constructor (max: nat)
      requires 0 < max
      ensures Terminated() && fresh(data)
      ensures this.max == max && Contents() == []
    {
      this.max := max;
      cur := 0;
      data := new char[max](_ => NUL);
    }

    /** `buffer_reset` */
    method Reset()
      requires Valid()
      modifies this, data
      ensures Terminated()
      ensures Contents() == []
    {
      cur := 0;
      data[0] := NUL;
    }

    /** `buffer_addch`; false stands for -1. */
    method Add(ch: char) returns (ok: bool)
      requires Terminated()
      modifies this, data
      ensures Terminated()
      ensures ok <==> |old(Contents())| + 1 < max
      ensures Contents() == AddCh(old(Contents()), max, ch)
    {
      if cur + 1 >= max {
        return false;
      }
      data[cur] := ch;
      cur := cur + 1;
      data[cur] := NUL;
      return true;
    }

    /** `buffer_consume` */
    method Consume(count: nat)
      requires Valid() && count <= cur
      modifies this, data
      ensures Valid()
      ensures Contents() == old(Contents())[count..]
    {
      forall i | 0 <= i < cur - count {
        data[i] := data[i + count];
      }
      cur := cur - count;
    }
  }
}
