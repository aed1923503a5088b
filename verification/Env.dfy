/** The packed environment of env.c: `name NUL value NUL name NUL value NUL ...` in one array,
    as an ordered list of bindings with distinct names. */
module Env {
  import opened Bytes

  datatype Binding = Binding(name: seq<char>, value: seq<char>)

  // ---------- Bindings

  predicate IsBinding(b: Binding) {
    NulFree(b.name) && NulFree(b.value)
  }

  predicate Distinct(bs: seq<Binding>) {
    forall i, j :: 0 <= i < j < |bs| ==> bs[i].name != bs[j].name
  }

  predicate AllBindings(bs: seq<Binding>) {
    forall i :: 0 <= i < |bs| ==> IsBinding(bs[i])
  }

  function Remove(bs: seq<Binding>, name: seq<char>): seq<Binding> {
    if bs == [] then []
    else (if bs[0].name == name then [] else [bs[0]]) + Remove(bs[1..], name)
  }

  function Lookup(bs: seq<Binding>, name: seq<char>): Option<seq<char>> {
    if bs == [] then None
    else if bs[0].name == name then Some(bs[0].value)
    else Lookup(bs[1..], name)
  }

  /** The bytes that a list of bindings takes. */
  function Size(bs: seq<Binding>): nat {
    if bs == [] then 0 else |bs[0].name| + |bs[0].value| + 2 + Size(bs[1..])
  }

  predicate Fits(bs: seq<Binding>, max: nat, b: Binding) {
    Size(Remove(bs, b.name)) + Size([b]) <= max
  }

  /** `env_set`: a value that does not fit still removes the old one. */
  function Set(bs: seq<Binding>, max: nat, b: Binding): seq<Binding> {
    Remove(bs, b.name) + if Fits(bs, max, b) then [b] else []
  }

  // ---------- Layout

  function Entry(b: Binding): seq<char> {
    b.name + [NUL] + b.value + [NUL]
  }

  function Encode(bs: seq<Binding>): seq<char> {
    if bs == [] then [] else Entry(bs[0]) + Encode(bs[1..])
  }

  /** Where binding `k` starts. */
  function Offset(bs: seq<Binding>, k: nat): nat
    requires k <= |bs|
  {
    |Encode(bs[..k])|
  }

  lemma {:induction false} EncodeAppend(a: seq<Binding>, b: seq<Binding>)
    ensures Encode(a + b) == Encode(a) + Encode(b)
  {
    if a == [] {
      assert a + b == b;
    } else {
      assert (a + b)[1..] == a[1..] + b;
      EncodeAppend(a[1..], b);
      Assoc(Entry(a[0]), Encode(a[1..]), Encode(b));
    }
  }

  lemma {:induction false} EncodeLength(bs: seq<Binding>)
    ensures |Encode(bs)| == Size(bs)
  {
    if bs != [] {
      EncodeLength(bs[1..]);
    }
  }

  lemma SizeOne(b: Binding)
    ensures Size([b]) == |b.name| + |b.value| + 2
  {
  }

  /** What the others take. */
  lemma SizeWithout(bs: seq<Binding>, k: nat)
    requires k < |bs|
    ensures Size(bs[..k] + bs[k + 1..]) + |bs[k].name| + |bs[k].value| + 2 == Size(bs)
  {
    var a, e, c := Around(bs, k);
    EncodeLength(bs);
    EncodeLength(bs[..k] + bs[k + 1..]);
  }

  lemma EncodeOne(b: Binding)
    ensures Encode([b]) == Entry(b)
  {
  }

  lemma EncodeSnoc(bs: seq<Binding>, b: Binding)
    ensures Encode(bs + [b]) == Encode(bs) + Entry(b)
  {
    EncodeAppend(bs, [b]);
    EncodeOne(b);
  }

  /** The bytes around binding `k`. */
  lemma EncodeAt(bs: seq<Binding>, k: nat)
    requires k < |bs|
    ensures Encode(bs) == Encode(bs[..k]) + Entry(bs[k]) + Encode(bs[k + 1..])
    ensures Offset(bs, k + 1) == Offset(bs, k) + |Entry(bs[k])|
  {
    assert bs == bs[..k] + ([bs[k]] + bs[k + 1..]);
    EncodeAppend(bs[..k], [bs[k]] + bs[k + 1..]);
    EncodeAppend([bs[k]], bs[k + 1..]);
    EncodeOne(bs[k]);
    Assoc(Encode(bs[..k]), Entry(bs[k]), Encode(bs[k + 1..]));
    assert bs[..k + 1] == bs[..k] + [bs[k]];
    EncodeAppend(bs[..k], [bs[k]]);
  }

  /** The entries around binding `k`, with it and without it. */
  lemma Around(bs: seq<Binding>, k: nat) returns (a: seq<char>, e: seq<char>, c: seq<char>)
    requires k < |bs|
    ensures |a| == Offset(bs, k) && |a| + |e| == Offset(bs, k + 1)
    ensures Encode(bs) == a + e + c
    ensures Encode(bs[..k] + bs[k + 1..]) == a + c && e == Entry(bs[k])
  {
    a, e, c := Encode(bs[..k]), Entry(bs[k]), Encode(bs[k + 1..]);
    EncodeAt(bs, k);
    EncodeAppend(bs[..k], bs[k + 1..]);
  }

  /** A string stands at `pos`, terminated. */
  predicate HasString(mem: seq<char>, pos: nat, s: seq<char>) {
    pos + |s| < |mem| && mem[pos..pos + |s|] == s && mem[pos + |s|] == NUL
  }

  lemma StringAt(mem: seq<char>, pos: nat, s: seq<char>)
    requires HasString(mem, pos, s) && NulFree(s)
    ensures CStr(mem[pos..]) == s
  {
    assert mem[pos..] == s + mem[pos + |s|..];
    CStrOfNulFree(s, mem[pos + |s|..]);
  }

  lemma HasStringInPrefix(live: seq<char>, mem: seq<char>, pos: nat, s: seq<char>)
    requires live <= mem && HasString(live, pos, s)
    ensures HasString(mem, pos, s)
  {
    assert mem[pos..pos + |s|] == live[pos..pos + |s|];
  }

  lemma EntryAt(before: seq<char>, b: Binding, after: seq<char>)
    ensures HasString(before + Entry(b) + after, |before|, b.name)
    ensures HasString(before + Entry(b) + after, |before| + |b.name| + 1, b.value)
  {
    var mem := before + Entry(b) + after;
    assert mem[|before|..|before| + |b.name|] == b.name;
    var val := |before| + |b.name| + 1;
    assert mem[val..val + |b.value|] == b.value;
  }

  /** Where the strings of binding `k` stand. */
  lemma StringsOf(bs: seq<Binding>, k: nat)
    requires k < |bs|
    ensures var ofs := Offset(bs, k);
            var val := ofs + |bs[k].name| + 1;
            && HasString(Encode(bs), ofs, bs[k].name) && HasString(Encode(bs), val, bs[k].value)
            && val + |bs[k].value| + 1 == Offset(bs, k + 1) <= |Encode(bs)|
  {
    EncodeAt(bs, k);
    EntryAt(Encode(bs[..k]), bs[k], Encode(bs[k + 1..]));
  }

  /** Both strings of binding `k` can be read off the memory where the layout puts them. */
  lemma StringsAt(mem: seq<char>, bs: seq<Binding>, k: nat, pos: nat, s: seq<char>)
    requires Encode(bs) <= mem && AllBindings(bs) && k < |bs|
    requires || (pos == Offset(bs, k) && s == bs[k].name)
             || (pos == Offset(bs, k) + |bs[k].name| + 1 && s == bs[k].value)
    ensures pos <= |mem| && CStr(mem[pos..]) == s
  {
    StringsOf(bs, k);
    HasStringInPrefix(Encode(bs), mem, pos, s);
    StringAt(mem, pos, s);
  }

  // ---------- The list operations

  lemma {:induction false} RemoveAt(bs: seq<Binding>, k: nat)
    requires k < |bs| && Distinct(bs)
    ensures Remove(bs, bs[k].name) == bs[..k] + bs[k + 1..]
  {
    if k == 0 {
      assert forall i :: 0 <= i < |bs[1..]| ==> bs[1..][i] == bs[i + 1];
      RemoveAbsent(bs[1..], bs[0].name);
    } else {
      assert bs[1..][k - 1] == bs[k];
      assert Distinct(bs[1..]);
      RemoveAt(bs[1..], k - 1);
      assert [bs[0]] + bs[1..][..k - 1] == bs[..k];
      assert bs[1..][k..] == bs[k + 1..];
    }
  }

  lemma {:induction false} RemoveAbsent(bs: seq<Binding>, name: seq<char>)
    requires forall i :: 0 <= i < |bs| ==> bs[i].name != name
    ensures Remove(bs, name) == bs
    ensures Lookup(bs, name) == None
  {
    if bs != [] {
      RemoveAbsent(bs[1..], name);
      assert bs == [bs[0]] + bs[1..];
    }
  }

  lemma {:induction false} LookupAt(bs: seq<Binding>, k: nat)
    requires k < |bs| && Distinct(bs)
    ensures Lookup(bs, bs[k].name) == Some(bs[k].value)
  {
    if k > 0 {
      assert bs[0].name != bs[k].name;
      assert bs[1..][k - 1] == bs[k];
      assert Distinct(bs[1..]);
      LookupAt(bs[1..], k - 1);
    }
  }

  lemma {:induction false} RemoveKeeps(bs: seq<Binding>, name: seq<char>)
    requires Distinct(bs)
    ensures Distinct(Remove(bs, name))
    ensures forall b :: b in Remove(bs, name) <==> b in bs && b.name != name
    ensures AllBindings(bs) ==> AllBindings(Remove(bs, name))
  {
    if bs != [] {
      assert bs == [bs[0]] + bs[1..];
      assert Distinct(bs[1..]);
      RemoveKeeps(bs[1..], name);
    }
  }

  /** `env_set` keeps the names distinct. */
  lemma SetKeeps(bs: seq<Binding>, max: nat, b: Binding)
    requires Distinct(bs)
    ensures Distinct(Set(bs, max, b))
    ensures AllBindings(bs) && IsBinding(b) ==> AllBindings(Set(bs, max, b))
  {
    RemoveKeeps(bs, b.name);
    forall i | 0 <= i < |Remove(bs, b.name)| ensures Remove(bs, b.name)[i].name != b.name {
      assert Remove(bs, b.name)[i] in Remove(bs, b.name);
    }
  }

  lemma {:induction false} LookupAppend(a: seq<Binding>, b: seq<Binding>, name: seq<char>)
    ensures Lookup(a + b, name) == if Lookup(a, name) != None then Lookup(a, name) else Lookup(b, name)
  {
    if a == [] {
      assert a + b == b;
    } else {
      assert (a + b)[1..] == a[1..] + b;
      LookupAppend(a[1..], b, name);
    }
  }

  lemma {:induction false} LookupRemove(bs: seq<Binding>, gone: seq<char>, name: seq<char>)
    ensures Lookup(Remove(bs, gone), name) == if name == gone then None else Lookup(bs, name)
  {
    if bs != [] {
      LookupRemove(bs[1..], gone, name);
      if bs[0].name != gone {
        assert ([bs[0]] + Remove(bs[1..], gone))[1..] == Remove(bs[1..], gone);
      } else {
        assert [] + Remove(bs[1..], gone) == Remove(bs[1..], gone);
      }
    }
  }

  /** What `env_get` sees after `env_set`: the other names are as before, and the name set has the
      new value if it fitted and none if not. */
  lemma LookupSet(bs: seq<Binding>, max: nat, b: Binding, name: seq<char>)
    ensures Lookup(Set(bs, max, b), name) ==
            if name != b.name then Lookup(bs, name)
            else if Fits(bs, max, b) then Some(b.value) else None
  {
    LookupRemove(bs, b.name, name);
    LookupAppend(Remove(bs, b.name), if Fits(bs, max, b) then [b] else [], name);
  }

  // ---------- When a set succeeds, in bytes

  /** Setting a name that is bound: its entry makes room first, so what has to fit is the encoding of the
      others and the new entry. */
  lemma SetReplaces(bs: seq<Binding>, max: nat, b: Binding, k: nat)
    requires Distinct(bs) && k < |bs| && bs[k].name == b.name
    ensures var others := bs[..k] + bs[k + 1..];
            var fits := |Encode(others)| + |Entry(b)| <= max;
            && Set(bs, max, b) == others + (if fits then [b] else [])
            && (Lookup(Set(bs, max, b), b.name) == Some(b.value) <==> fits)
            && |Encode(others)| + |Entry(bs[k])| == |Encode(bs)|
  {
    var others := bs[..k] + bs[k + 1..];
    RemoveAt(bs, k);
    EncodeLength(others);
    SizeOne(b);
    LookupSet(bs, max, b, b.name);
    var a, e, c := Around(bs, k);
  }

  /** Setting a new name. */
  lemma SetAdds(bs: seq<Binding>, max: nat, b: Binding)
    requires forall i :: 0 <= i < |bs| ==> bs[i].name != b.name
    ensures var fits := |Encode(bs)| + |Entry(b)| <= max;
            && Set(bs, max, b) == bs + (if fits then [b] else [])
            && (Lookup(Set(bs, max, b), b.name) == Some(b.value) <==> fits)
  {
    RemoveAbsent(bs, b.name);
    EncodeLength(bs);
    SizeOne(b);
    LookupSet(bs, max, b, b.name);
  }

  /** Main result: a value can always be replaced by one that is no longer. */
  lemma NoLongerFits(bs: seq<Binding>, max: nat, b: Binding, k: nat)
    requires Distinct(bs) && k < |bs| && bs[k].name == b.name && |b.value| <= |bs[k].value|
    requires |Encode(bs)| <= max
    ensures Set(bs, max, b) == bs[..k] + bs[k + 1..] + [b]
    ensures Lookup(Set(bs, max, b), b.name) == Some(b.value)
  {
    SetReplaces(bs, max, b, k);
  }

  // ---------- How far the memmove of env_delete reaches

  /** The memmove that deletes `name` stays inside the `max` bytes of the heap: it moves down as many
      bytes as stay live, from behind the entry on, however few of them follow it. */
  predicate MoveFits(bs: seq<Binding>, max: nat, name: seq<char>) {
    forall k :: 0 <= k < |bs| && bs[k].name == name ==> Offset(bs, k) + Size(bs) <= max
  }

  lemma SameName(bs: seq<Binding>, j: nat, k: nat)
    requires Distinct(bs) && j < |bs| && k < |bs| && bs[j].name == bs[k].name
    ensures j == k
  {
  }

  /** For a binding at a known place that is one comparison. */
  lemma MoveFitsAt(bs: seq<Binding>, max: nat, k: nat)
    requires Distinct(bs) && k < |bs|
    ensures MoveFits(bs, max, bs[k].name) <==> Offset(bs, k) + Size(bs) <= max
  {
    if Offset(bs, k) + Size(bs) <= max {
      forall j | 0 <= j < |bs| && bs[j].name == bs[k].name ensures Offset(bs, j) + Size(bs) <= max {
        SameName(bs, j, k);
      }
    }
  }

  /** A binding starts where at least its own bytes are still to come. */
  lemma OffsetLeavesRoom(bs: seq<Binding>, k: nat)
    requires k < |bs|
    ensures Offset(bs, k) + Size([bs[k]]) <= Size(bs)
  {
    EncodeAt(bs, k);
    EncodeLength(bs);
  }

  /** In a heap that is at most half full, the deleted entry counted only once, it always fits. */
  lemma HalfFullFits(bs: seq<Binding>, max: nat, name: seq<char>)
    requires 2 * Size(bs) <= max + |name| + 2
    ensures MoveFits(bs, max, name)
  {
    forall k | 0 <= k < |bs| && bs[k].name == name ensures Offset(bs, k) + Size(bs) <= max {
      OffsetLeavesRoom(bs, k);
    }
  }

  /** Two bindings of `s` bytes together, of which the last is as short as possible. */
  function Crowded(s: nat): seq<Binding>
    requires 5 <= s
  {
    [Binding(seq(s - 4, _ => 'a'), []), Binding([], [])]
  }

  lemma CrowdedIsTight(s: nat, max: nat)
    requires 5 <= s && max + 2 < 2 * s
    ensures Size(Crowded(s)) == s && Distinct(Crowded(s)) && AllBindings(Crowded(s))
    ensures !MoveFits(Crowded(s), max, [])
  {
    var bs := Crowded(s);
    assert bs[1..] == [bs[1]] && bs[1..][1..] == [];
    assert bs[0].name != bs[1].name;
    EncodeAt(bs, 1);
    EncodeLength(bs);
    MoveFitsAt(bs, max, 1);
  }

  /** Every list of bindings of a given size. */
  ghost predicate AlwaysFits(s: nat, max: nat) {
    forall bs: seq<Binding>, name: seq<char> ::
      Size(bs) == s && Distinct(bs) && AllBindings(bs) ==> MoveFits(bs, max, name)
  }

  lemma TwoTakeFive(bs: seq<Binding>)
    requires Distinct(bs) && 2 <= |bs|
    ensures 5 <= Size(bs)
  {
    assert bs[0].name != bs[1].name;
    assert bs[1..][0] == bs[1];
  }

  /** Main result: for the bytes in use alone it is certain that no deletion moves past the heap exactly
      when they hold one binding at most, or are at most half of the heap and one. */
  lemma FitsUpToHalf(s: nat, max: nat)
    requires s <= max
    ensures AlwaysFits(s, max) <==> s < 5 || 2 * s <= max + 2
  {
    if s < 5 || 2 * s <= max + 2 {
      forall bs: seq<Binding>, name: seq<char> | Size(bs) == s && Distinct(bs) && AllBindings(bs)
        ensures MoveFits(bs, max, name)
      {
        if 2 * s <= max + 2 {
          HalfFullFits(bs, max, name);
        } else if 2 <= |bs| {
          TwoTakeFive(bs);
        } else {
          OnlyOneFits(bs, max, name);
        }
      }
    } else {
      CrowdedIsTight(s, max);
    }
  }

  lemma OnlyOneFits(bs: seq<Binding>, max: nat, name: seq<char>)
    requires |bs| <= 1 && Size(bs) <= max
    ensures MoveFits(bs, max, name)
  {
    assert bs[..0] == [];
  }

  // ---------- Sequences of operations

  datatype Op = SetOp(b: Binding) | DeleteOp(name: seq<char>)

  /** The bindings after a sequence of operations on an empty environment. */
  function Replay(max: nat, ops: seq<Op>): seq<Binding> {
    if ops == [] then []
    else
      var bs := Replay(max, ops[..|ops| - 1]);
      match ops[|ops| - 1]
      case SetOp(b) => Set(bs, max, b)
      case DeleteOp(name) => Remove(bs, name)
  }

  function Name(op: Op): seq<char> {
    match op
    case SetOp(b) => b.name
    case DeleteOp(name) => name
  }

  /** The index of the last operation on `name`, or -1. */
  function LastOn(ops: seq<Op>, name: seq<char>): (i: int)
    ensures -1 <= i < |ops|
    ensures i >= 0 ==> Name(ops[i]) == name
    ensures forall j :: i < j < |ops| ==> Name(ops[j]) != name
  {
    if ops == [] then -1
    else if Name(ops[|ops| - 1]) == name then |ops| - 1
    else LastOn(ops[..|ops| - 1], name)
  }

  /** Whether operation `i` was an `env_set` that succeeded. */
  predicate Succeeded(max: nat, ops: seq<Op>, i: nat)
    requires i < |ops|
  {
    ops[i].SetOp? && Fits(Replay(max, ops[..i]), max, ops[i].b)
  }

  /** The value that history gives a name: that of the last operation on it, if that operation was a
      set that fitted when it was made. */
  function Current(max: nat, ops: seq<Op>, name: seq<char>): Option<seq<char>> {
    var i := LastOn(ops, name);
    if i >= 0 && Succeeded(max, ops, i) then Some(ops[i].b.value) else None
  }

  /** Main result: lookup agrees with history, whatever operations on other names came before or
      after and whichever of them failed. */
  lemma {:induction false} LookupIsCurrent(max: nat, ops: seq<Op>, name: seq<char>)
    ensures Lookup(Replay(max, ops), name) == Current(max, ops, name)
    decreases |ops|
  {
    if ops != [] {
      var init, op := ops[..|ops| - 1], ops[|ops| - 1];
      var bs := Replay(max, init);
      LookupIsCurrent(max, init, name);
      match op {
        case SetOp(b) => LookupSet(bs, max, b, name);
        case DeleteOp(gone) => LookupRemove(bs, gone, name);
      }
      if Name(op) != name && LastOn(init, name) >= 0 {
        assert ops[..LastOn(init, name)] == init[..LastOn(init, name)];
      }
    }
  }

  lemma {:induction false} ReplayIsDistinct(max: nat, ops: seq<Op>)
    ensures Distinct(Replay(max, ops))
    decreases |ops|
  {
    if ops != [] {
      var init, op := ops[..|ops| - 1], ops[|ops| - 1];
      ReplayIsDistinct(max, init);
      match op {
        case SetOp(b) => SetKeeps(Replay(max, init), max, b);
        case DeleteOp(name) => RemoveKeeps(Replay(max, init), name);
      }
    }
  }

  lemma {:induction false} ReplayFits(max: nat, ops: seq<Op>)
    ensures Size(Replay(max, ops)) <= max
    decreases |ops|
  {
    if ops != [] {
      var init, op := ops[..|ops| - 1], ops[|ops| - 1];
      ReplayFits(max, init);
      SizeRemove(Replay(max, init), Name(op));
      if op.SetOp? {
        var r := Remove(Replay(max, init), op.b.name);
        SizeAppend(r, [op.b]);
        assert r + [] == r;
      }
    }
  }

  /** Main result: after any operations the bindings stand in the order in which they were last set,
      each as it was set, no name occurs twice, and the bound holds. */
  lemma {:induction false} ReplayIsOrdered(max: nat, ops: seq<Op>)
    ensures InSetOrder(ops, Replay(max, ops))
    ensures Distinct(Replay(max, ops)) && Size(Replay(max, ops)) <= max
    decreases |ops|
  {
    ReplayIsDistinct(max, ops);
    ReplayFits(max, ops);
    if ops != [] {
      var init, op := ops[..|ops| - 1], ops[|ops| - 1];
      var bs := Replay(max, init);
      ReplayIsOrdered(max, init);
      OrderAfterRemove(init, bs, op);
      assert ops == init + [op];
      if op.SetOp? && Fits(bs, max, op.b) {
        RemoveKeeps(bs, op.b.name);
        OrderAfterAdd(init, Remove(bs, op.b.name), op.b);
      } else {
        assert Replay(max, ops) == Remove(bs, Name(op));
      }
    }
  }

  /** Operation `i` of a history moves inside the heap as it finds it. */
  predicate OpFits(max: nat, ops: seq<Op>, i: nat)
    requires i < |ops|
  {
    MoveFits(Replay(max, ops[..i]), max, Name(ops[i]))
  }

  /** And so does every operation. */
  predicate AllMovesFit(max: nat, ops: seq<Op>) {
    ops == [] || (AllMovesFit(max, ops[..|ops| - 1]) && OpFits(max, ops, |ops| - 1))
  }

  lemma AllMovesFitSnoc(max: nat, ops: seq<Op>, op: Op)
    ensures AllMovesFit(max, ops + [op]) <==> AllMovesFit(max, ops) && MoveFits(Replay(max, ops), max, Name(op))
  {
    assert (ops + [op])[..|ops|] == ops;
  }

  lemma AllMovesFitOneMore(max: nat, ops: seq<Op>, i: nat)
    requires i < |ops|
    ensures AllMovesFit(max, ops[..i + 1]) <==> AllMovesFit(max, ops[..i]) && OpFits(max, ops, i)
  {
    assert ops[..i + 1] == ops[..i] + [ops[i]];
    AllMovesFitSnoc(max, ops[..i], ops[i]);
  }

  lemma {:induction false} AllMovesFitUpTo(max: nat, ops: seq<Op>, n: nat)
    requires n <= |ops|
    ensures AllMovesFit(max, ops[..n]) <==> forall i :: 0 <= i < n ==> OpFits(max, ops, i)
  {
    if n > 0 {
      AllMovesFitUpTo(max, ops, n - 1);
      AllMovesFitOneMore(max, ops, n - 1);
    }
  }

  // The condition on the operations themselves.

  /** Set `j` is in effect before operation `i`: it fitted, and nothing has been done to its name since. */
  predicate LiveAt(max: nat, ops: seq<Op>, i: nat, j: nat)
    requires j < i <= |ops|
    decreases j, 2
  {
    && ops[j].SetOp? && Fitted(max, ops, j)
    && forall k :: j < k < i ==> Name(ops[k]) != Name(ops[j])
  }

  /** The bytes of the sets of other names in effect before set `j` leave room for it. */
  predicate Fitted(max: nat, ops: seq<Op>, j: nat)
    requires j < |ops| && ops[j].SetOp?
    decreases j, 1
  {
    Fits(LiveBefore(max, ops, j, j), max, ops[j].b)
  }

  /** The sets before `upto` that are in effect before operation `i`, in their order. */
  function LiveBefore(max: nat, ops: seq<Op>, i: nat, upto: nat): seq<Binding>
    requires upto <= i <= |ops|
    decreases upto, 0
  {
    if upto == 0 then []
    else LiveBefore(max, ops, i, upto - 1) + if LiveAt(max, ops, i, upto - 1) then [ops[upto - 1].b] else []
  }

  lemma {:induction false} RemoveSnoc(bs: seq<Binding>, b: Binding, name: seq<char>)
    ensures Remove(bs + [b], name) == Remove(bs, name) + if b.name == name then [] else [b]
  {
    if bs == [] {
      assert [] + [b] == [b];
    } else {
      var head, last := if bs[0].name == name then [] else [bs[0]], if b.name == name then [] else [b];
      assert (bs + [b])[0] == bs[0] && (bs + [b])[1..] == bs[1..] + [b];
      RemoveSnoc(bs[1..], b, name);
      Assoc(head, Remove(bs[1..], name), last);
    }
  }

  lemma LiveAtNext(max: nat, ops: seq<Op>, i: nat, j: nat)
    requires j < i < |ops|
    ensures LiveAt(max, ops, i + 1, j) <==> LiveAt(max, ops, i, j) && Name(ops[i]) != Name(ops[j])
  {
  }

  /** An operation ends the effect of the earlier sets of its name. */
  lemma {:induction false} LiveBeforeNext(max: nat, ops: seq<Op>, i: nat, upto: nat)
    requires upto <= i < |ops|
    ensures LiveBefore(max, ops, i + 1, upto) == Remove(LiveBefore(max, ops, i, upto), Name(ops[i]))
  {
    if upto > 0 {
      var bs := LiveBefore(max, ops, i, upto - 1);
      LiveBeforeNext(max, ops, i, upto - 1);
      LiveAtNext(max, ops, i, upto - 1);
      if LiveAt(max, ops, i, upto - 1) {
        RemoveSnoc(bs, ops[upto - 1].b, Name(ops[i]));
      } else {
        assert bs + [] == bs;
        assert Remove(bs, Name(ops[i])) + [] == Remove(bs, Name(ops[i]));
      }
    }
  }

  /** What an operation makes of the sets in effect. */
  lemma LiveStep(max: nat, ops: seq<Op>, i: nat)
    requires i < |ops|
    ensures LiveBefore(max, ops, i + 1, i + 1) ==
            if ops[i].SetOp? then Set(LiveBefore(max, ops, i, i), max, ops[i].b)
            else Remove(LiveBefore(max, ops, i, i), ops[i].name)
  {
    LiveBeforeNext(max, ops, i, i);
    assert LiveAt(max, ops, i + 1, i) <==> ops[i].SetOp? && Fitted(max, ops, i);
    var r := Remove(LiveBefore(max, ops, i, i), Name(ops[i]));
    assert r + [] == r;
  }

  lemma ReplayAt(max: nat, ops: seq<Op>, i: nat)
    requires i < |ops|
    ensures Replay(max, ops[..i + 1]) ==
            if ops[i].SetOp? then Set(Replay(max, ops[..i]), max, ops[i].b)
            else Remove(Replay(max, ops[..i]), ops[i].name)
  {
    assert ops[..i + 1] == ops[..i] + [ops[i]];
    ReplaySnoc(max, ops[..i], ops[i]);
  }

  /** The bindings are the sets in effect. */
  lemma {:induction false} LiveIsReplay(max: nat, ops: seq<Op>, i: nat)
    requires i <= |ops|
    ensures LiveBefore(max, ops, i, i) == Replay(max, ops[..i])
  {
    if i > 0 {
      LiveIsReplay(max, ops, i - 1);
      LiveStep(max, ops, i - 1);
      ReplayAt(max, ops, i - 1);
    }
  }

  /** The sets before `upto` come first. */
  lemma {:induction false} LiveGrows(max: nat, ops: seq<Op>, i: nat, j: nat, upto: nat)
    requires j <= upto <= i <= |ops|
    ensures LiveBefore(max, ops, i, j) <= LiveBefore(max, ops, i, upto)
  {
    if j < upto {
      LiveGrows(max, ops, i, j, upto - 1);
    }
  }

  /** A set in effect is the binding behind those of the sets before it. */
  lemma LivePlace(max: nat, ops: seq<Op>, i: nat, j: nat)
    requires j < i <= |ops| && LiveAt(max, ops, i, j)
    ensures var bs, k := Replay(max, ops[..i]), |LiveBefore(max, ops, i, j)|;
            k < |bs| && bs[k] == ops[j].b && bs[..k] == LiveBefore(max, ops, i, j)
  {
    LiveIsReplay(max, ops, i);
    LiveGrows(max, ops, i, j + 1, i);
    var before, all := LiveBefore(max, ops, i, j), LiveBefore(max, ops, i, i);
    assert before + [ops[j].b] <= all;
    assert (before + [ops[j].b])[|before|] == ops[j].b;
    assert all[..|before|] == before;
  }

  /** Every binding is a set in effect. */
  lemma {:induction false} LiveIndex(max: nat, ops: seq<Op>, i: nat, upto: nat, k: nat) returns (j: nat)
    requires upto <= i <= |ops| && k < |LiveBefore(max, ops, i, upto)|
    ensures j < upto && LiveAt(max, ops, i, j) && k == |LiveBefore(max, ops, i, j)|
  {
    if k < |LiveBefore(max, ops, i, upto - 1)| {
      j := LiveIndex(max, ops, i, upto - 1, k);
    } else {
      j := upto - 1;
    }
  }

  /** If operation `i` is on the name of set `j`, which is in effect, then the bytes of the sets in
      effect before `j` and of all sets in effect are together at most the size of the heap. */
  predicate RepeatFits(max: nat, ops: seq<Op>, i: nat, j: nat)
    requires j < i < |ops|
  {
    LiveAt(max, ops, i, j) && Name(ops[j]) == Name(ops[i]) ==>
      Size(LiveBefore(max, ops, i, j)) + Size(LiveBefore(max, ops, i, i)) <= max
  }

  lemma LiveOffset(max: nat, ops: seq<Op>, i: nat, j: nat)
    requires j < i <= |ops| && LiveAt(max, ops, i, j)
    ensures var bs, k := Replay(max, ops[..i]), |LiveBefore(max, ops, i, j)|;
            && k < |bs| && bs[k] == ops[j].b
            && Offset(bs, k) + Size(bs) == Size(LiveBefore(max, ops, i, j)) + Size(LiveBefore(max, ops, i, i))
  {
    LivePlace(max, ops, i, j);
    LiveIsReplay(max, ops, i);
    EncodeLength(LiveBefore(max, ops, i, j));
  }

  lemma OpFitsIfRepeatsFit(max: nat, ops: seq<Op>, i: nat)
    requires i < |ops|
    ensures OpFits(max, ops, i) <==> RepeatsFitAt(max, ops, i)
  {
    var bs, name := Replay(max, ops[..i]), Name(ops[i]);
    if MoveFits(bs, max, name) {
      forall j | 0 <= j < i ensures RepeatFits(max, ops, i, j) {
        if LiveAt(max, ops, i, j) {
          LiveOffset(max, ops, i, j);
        }
      }
    }
    if RepeatsFitAt(max, ops, i) {
      forall k | 0 <= k < |bs| && bs[k].name == name ensures Offset(bs, k) + Size(bs) <= max {
        LiveIsReplay(max, ops, i);
        var j := LiveIndex(max, ops, i, i, k);
        LiveOffset(max, ops, i, j);
        assert RepeatFits(max, ops, i, j);
      }
    }
  }

  /** Every operation on a name that is in effect. */
  predicate RepeatsFit(max: nat, ops: seq<Op>) {
    forall i :: 0 <= i < |ops| ==> RepeatsFitAt(max, ops, i)
  }

  predicate RepeatsFitAt(max: nat, ops: seq<Op>, i: nat)
    requires i < |ops|
  {
    forall j :: 0 <= j < i ==> RepeatFits(max, ops, i, j)
  }

  /** Main result: a history keeps every move inside the heap exactly if for every operation on a name
      that is in effect the bytes set before that name and all bytes in effect together fit in it. */
  lemma HistoryFitsExactly(max: nat, ops: seq<Op>)
    ensures AllMovesFit(max, ops) <==> RepeatsFit(max, ops)
  {
    AllMovesFitUpTo(max, ops, |ops|);
    assert ops[..|ops|] == ops;
    forall i | 0 <= i < |ops| ensures OpFits(max, ops, i) <==> RepeatsFitAt(max, ops, i) {
      OpFitsIfRepeatsFit(max, ops, i);
    }
  }

  /** The bytes that all sets of a history would take. */
  function Total(ops: seq<Op>): nat {
    if ops == [] then 0
    else Total(ops[..|ops| - 1]) + if ops[|ops| - 1].SetOp? then Size([ops[|ops| - 1].b]) else 0
  }

  lemma {:induction false} SizeUpToTotal(max: nat, ops: seq<Op>)
    ensures Size(Replay(max, ops)) <= Total(ops)
    decreases |ops|
  {
    if ops != [] {
      var init, op := ops[..|ops| - 1], ops[|ops| - 1];
      SizeUpToTotal(max, init);
      SizeRemove(Replay(max, init), Name(op));
      if op.SetOp? {
        var r := Remove(Replay(max, init), op.b.name);
        SizeAppend(r, [op.b]);
        assert r + [] == r;
      }
    }
  }

  /** No name is set twice. */
  predicate OnceEach(ops: seq<Op>) {
    forall i, j :: 0 <= i < j < |ops| ==> Name(ops[i]) != Name(ops[j])
  }

  lemma UnusedName(max: nat, ops: seq<Op>, name: seq<char>)
    requires forall i :: 0 <= i < |ops| ==> Name(ops[i]) != name
    ensures MoveFits(Replay(max, ops), max, name)
  {
    ReplayIsOrdered(max, ops);
    var bs := Replay(max, ops);
    forall k | 0 <= k < |bs| ensures bs[k].name != name {
      assert Name(ops[LastOn(ops, bs[k].name)]) == bs[k].name;
    }
  }

  /** Main result: a history keeps every move inside the heap if it uses no name twice, or if all that
      it sets takes no more than half of the heap and one byte. */
  lemma {:induction false} ModestHistoriesFit(max: nat, ops: seq<Op>)
    requires OnceEach(ops) || 2 * Total(ops) <= max + 2
    ensures AllMovesFit(max, ops)
    decreases |ops|
  {
    if ops != [] {
      var init, op := ops[..|ops| - 1], ops[|ops| - 1];
      assert ops == init + [op];
      assert OnceEach(ops) ==> OnceEach(init);
      ModestHistoriesFit(max, init);
      if OnceEach(ops) {
        forall i | 0 <= i < |init| ensures Name(init[i]) != Name(op) {
          assert Name(ops[i]) != Name(ops[|init|]);
        }
        UnusedName(max, init, Name(op));
      } else {
        SizeUpToTotal(max, init);
        HalfFullFits(Replay(max, init), max, Name(op));
      }
      AllMovesFitSnoc(max, init, op);
    }
  }

  /** A name set twice behind another binding: the second set moves inside the heap exactly when twice
      the bytes before the old entry and those of that entry fit in it. */
  lemma SetBehind(max: nat, first: Binding, b: Binding, again: Binding)
    requires first.name != b.name && b.name == again.name && Size([first]) + Size([b]) <= max
    ensures var ops := [SetOp(first), SetOp(b), SetOp(again)];
            AllMovesFit(max, ops) <==> 2 * Size([first]) + Size([b]) <= max
  {
    var none: seq<Op> := [];
    var one, two := none + [SetOp(first)], none + [SetOp(first)] + [SetOp(b)];
    TwoSets(max, first, b);
    AllMovesFitSnoc(max, none, SetOp(first));
    AllMovesFitSnoc(max, one, SetOp(b));
    AllMovesFitSnoc(max, two, SetOp(again));
    assert two + [SetOp(again)] == [SetOp(first), SetOp(b), SetOp(again)];
    MoveFitsAt([first, b], max, 1);
    SizeAppend([first], [b]);
    assert [first] + [b] == [first, b] && [first, b][..1] == [first];
    EncodeLength([first]);
  }

  lemma TwoSets(max: nat, first: Binding, b: Binding)
    requires first.name != b.name && Size([first]) + Size([b]) <= max
    ensures var one: seq<Op> := [] + [SetOp(first)];
            && Replay(max, []) == [] && Replay(max, one) == [first]
            && Replay(max, one + [SetOp(b)]) == [first, b]
  {
    ReplaySnoc(max, [], SetOp(first));
    ReplaySnoc(max, [] + [SetOp(first)], SetOp(b));
    assert Set([], max, first) == [first];
    RemoveAbsent([first], b.name);
    assert Set([first], max, b) == [first] + [b] == [first, b];
  }

  lemma ReplaySnoc(max: nat, ops: seq<Op>, op: Op)
    ensures Replay(max, ops + [op]) ==
            if op.SetOp? then Set(Replay(max, ops), max, op.b) else Remove(Replay(max, ops), op.name)
  {
    assert (ops + [op])[..|ops|] == ops;
  }

  lemma OrderAfterAdd(ops: seq<Op>, bs: seq<Binding>, b: Binding)
    requires InSetOrder(ops + [SetOp(b)], bs)
    requires forall c :: c in bs ==> c.name != b.name
    ensures InSetOrder(ops + [SetOp(b)], bs + [b])
  {
    var all := ops + [SetOp(b)];
    assert all[..|ops|] == ops;
    assert LastOn(all, b.name) == |ops|;
    forall i | 0 <= i < |bs| ensures LastOn(all, bs[i].name) < |ops| {
      assert bs[i] in bs;
    }
  }

  ghost predicate InSetOrder(ops: seq<Op>, bs: seq<Binding>) {
    && (forall i :: 0 <= i < |bs| ==>
          var at := LastOn(ops, bs[i].name); at >= 0 && ops[at] == SetOp(bs[i]))
    && (forall i, j :: 0 <= i < j < |bs| ==> LastOn(ops, bs[i].name) < LastOn(ops, bs[j].name))
  }

  lemma OrderAfterRemove(ops: seq<Op>, bs: seq<Binding>, op: Op)
    requires Distinct(bs) && InSetOrder(ops, bs)
    ensures InSetOrder(ops + [op], Remove(bs, Name(op)))
  {
    var r := Remove(bs, Name(op));
    RemoveKeepsOrder(ops, bs, Name(op));
    RemoveKeeps(bs, Name(op));
    forall i | 0 <= i < |r| ensures LastOn(ops + [op], r[i].name) == LastOn(ops, r[i].name) {
      assert r[i] in r;
      LastOnOther(ops, op, r[i].name);
    }
    assert forall i :: 0 <= i < |ops| ==> (ops + [op])[i] == ops[i];
  }

  lemma LastOnOther(ops: seq<Op>, op: Op, name: seq<char>)
    requires Name(op) != name
    ensures LastOn(ops + [op], name) == LastOn(ops, name)
  {
    assert (ops + [op])[..|ops|] == ops;
  }

  /** A list whose bindings come, in order, from one in set order is in set order. */
  lemma PartInOrder(ops: seq<Op>, bs: seq<Binding>, part: seq<Binding>, at: nat -> nat)
    requires InSetOrder(ops, bs)
    requires forall i :: 0 <= i < |part| ==> at(i) < |bs| && part[i] == bs[at(i)]
    requires forall i, j :: 0 <= i < j < |part| ==> at(i) < at(j)
    ensures InSetOrder(ops, part)
  {
  }

  lemma {:induction false} RemoveKeepsOrder(ops: seq<Op>, bs: seq<Binding>, name: seq<char>)
    requires Distinct(bs) && InSetOrder(ops, bs)
    ensures InSetOrder(ops, Remove(bs, name))
  {
    if k: nat :| k < |bs| && bs[k].name == name {
      RemoveAt(bs, k);
      PartInOrder(ops, bs, bs[..k] + bs[k + 1..], i => if i < k then i else i + 1);
    } else {
      RemoveAbsent(bs, name);
    }
  }

  lemma {:induction false} SizeRemove(bs: seq<Binding>, name: seq<char>)
    ensures Size(Remove(bs, name)) <= Size(bs)
  {
    if bs != [] {
      SizeRemove(bs[1..], name);
      if bs[0].name != name {
        assert ([bs[0]] + Remove(bs[1..], name))[1..] == Remove(bs[1..], name);
      } else {
        assert [] + Remove(bs[1..], name) == Remove(bs[1..], name);
      }
    }
  }

  lemma {:induction false} SizeAppend(a: seq<Binding>, b: seq<Binding>)
    ensures Size(a + b) == Size(a) + Size(b)
  {
    if a == [] {
      assert a + b == b;
    } else {
      assert (a + b)[1..] == a[1..] + b;
      SizeAppend(a[1..], b);
    }
  }

  // ---------- The environment

  /** `memmove` inside one array; every byte read or written is before `end`. */
  method MemMove(a: array<char>, dst: nat, src: nat, n: nat) returns (ghost end: nat)
    requires dst <= src && src + n <= a.Length
    modifies a
    ensures forall i :: dst <= i < dst + n ==> a[i] == old(a[i - dst + src])
    ensures forall i :: 0 <= i < dst || dst + n <= i < a.Length ==> a[i] == old(a[i])
    ensures end == src + n
  {
    end := src + n;
    forall i | dst <= i < dst + n {
      a[i] := a[i - dst + src];
    }
  }

  /** `memcpy` of a string and its NUL into an array. */
  method CopyString(a: array<char>, dst: nat, s: seq<char>)
    requires dst + |s| + 1 <= a.Length
    modifies a
    ensures a[..] == old(a[..dst]) + (s + [NUL]) + old(a[dst + |s| + 1..])
  {
    forall i | 0 <= i < |s| {
      a[dst + i] := s[i];
    }
    a[dst + |s|] := NUL;
  }

  /** Where the bytes of `a + c` stand in `a + e + c`. */
  lemma WithoutMiddle(live: seq<char>, a: seq<char>, e: seq<char>, c: seq<char>)
    requires live == a + e + c
    ensures forall i :: 0 <= i < |a| ==> (a + c)[i] == live[i]
    ensures forall i :: |a| <= i < |a + c| ==> (a + c)[i] == live[i - |a| + |a + e|]
  {
  }

  function Furthest(a: nat, b: nat): nat {
    if a < b then b else a
  }

  class Environment {
    const max: nat
    var cur: nat
    const heap: array<char>
    ghost var bindings: seq<Binding>
    /** Every byte that a memmove has read or written so far is before this one. */
    ghost var reach: nat

    /** The live bytes encode the bindings.  Behind the `max` bytes of the heap there is room for
        what `env_delete` moves beyond them. */
    ghost predicate Valid()
      reads this, heap
    {
      && 2 * max <= heap.Length
      && cur <= max
      && Encode(bindings) == heap[..cur]
      && AllBindings(bindings)
      && Distinct(bindings)
    }

    constructor (max: nat)
      ensures Valid() && fresh(heap)
      ensures this.max == max && bindings == [] && reach == 0
    {
      reach := 0;
      this.max := max;
      cur := 0;
      heap := new char[2 * max];
      bindings := [];
    }

    /** The number of bytes in use is the sum over the bindings. */
    lemma Accounting()
      requires Valid()
      ensures cur == Size(bindings)
    {
      EncodeLength(bindings);
    }

    lemma End()
      requires Valid()
      ensures Offset(bindings, |bindings|) == cur
    {
      assert bindings[..|bindings|] == bindings;
    }

    /** The C string at `pos`: the name or the value of binding `k`. */
    method StringFrom(pos: nat, ghost k: nat, ghost s: seq<char>) returns (r: seq<char>)
      requires Valid() && k < |bindings|
      requires || (pos == Offset(bindings, k) && s == bindings[k].name)
               || (pos == Offset(bindings, k) + |bindings[k].name| + 1 && s == bindings[k].value)
      ensures r == s
    {
      StringsAt(heap[..], bindings, k, pos, s);
      r := CStr(heap[..][pos..]);
    }

    /** `env_load` of binding `k`. */
    method Load(ofs: nat, ghost k: nat)
      returns (ok: bool, name: seq<char>, value: seq<char>, next: nat)
      requires Valid() && k < |bindings| && ofs == Offset(bindings, k)
      ensures ok && name == bindings[k].name && value == bindings[k].value
      ensures next == Offset(bindings, k + 1) && ofs + 2 <= next <= cur
    {
      StringsOf(bindings, k);
      ok, name, value, next := false, [], [], 0;
      if ofs >= cur {
        return;
      }
      name := StringFrom(ofs, k, bindings[k].name);
      var valStart := ofs + |name| + 1;
      if valStart >= cur {
        return;
      }
      value := StringFrom(valStart, k, bindings[k].value);
      return true, name, value, valStart + |value| + 1;
    }

    /** `env_find` */
    method Find(name: seq<char>) returns (found: bool, ofs: nat, len: nat, ghost k: nat)
      requires Valid()
      ensures found ==> k < |bindings| && bindings[k].name == name
      ensures found ==> ofs == Offset(bindings, k) && ofs + len == Offset(bindings, k + 1) <= cur
      ensures !found ==> forall j :: 0 <= j < |bindings| ==> bindings[j].name != name
    {
      found, ofs, len := false, 0, 0;
      var i := 0;
      k := 0;
      End();
      while i < cur
        invariant k <= |bindings| && i == Offset(bindings, k) <= cur
        invariant forall j :: 0 <= j < k ==> bindings[j].name != name
        decreases cur - i
      {
        var ok, curName, curValue, next := Load(i, k);
        if !ok {
          return;
        }
        if name == curName {
          return true, i, next - i, k;
        }
        i, k := next, k + 1;
      }
      if k < |bindings| {
        EncodeAt(bindings, k);
      }
    }

    /** Take an entry `e` out of the heap: the memmove of env_delete, which moves `cur` bytes although
        fewer than that are live behind the entry.  It reaches up to `end`. */
    method TakeOut(ofs: nat, len: nat, ghost a: seq<char>, ghost e: seq<char>, ghost c: seq<char>)
      returns (ghost end: nat)
      requires 2 * cur <= heap.Length && heap[..cur] == a + e + c && ofs == |a| && len == |e|
      modifies this`cur, heap
      ensures cur == old(cur) - len
      ensures heap[..cur] == a + c
      ensures end == ofs + old(cur)
      ensures forall i :: end <= i < heap.Length ==> heap[i] == old(heap[i])
    {
      ghost var live := heap[..cur];
      WithoutMiddle(live, a, e, c);
      cur := cur - len;
      end := MemMove(heap, ofs, ofs + len, cur);
      forall i | 0 <= i < cur ensures heap[i] == (a + c)[i] {
        assert live[if i < ofs then i else i - ofs + (ofs + len)] == (a + c)[i];
      }
    }

    /** `env_delete`: exactly the binding of `name` goes.  The bytes that it reads or writes are before
        `end`, and so inside the heap exactly when `MoveFits` says so. */
    method Delete(name: seq<char>) returns (ghost end: nat)
      requires Valid()
      modifies this, heap
      ensures Valid()
      ensures bindings == Remove(old(bindings), name)
      ensures end <= max <==> MoveFits(old(bindings), max, name)
      ensures reach == Furthest(old(reach), end)
      ensures forall i :: end <= i < heap.Length ==> heap[i] == old(heap[i])
    {
      var found, ofs, len;
      ghost var k;
      found, ofs, len, k := Find(name);
      if found {
        ghost var a, e, c := Around(bindings, k);
        MoveFitsAt(bindings, max, k);
        Accounting();
        RemoveAt(bindings, k);
        RemoveKeeps(bindings, name);
        end := TakeOut(ofs, len, a, e, c);
        bindings := bindings[..k] + bindings[k + 1..];
      } else {
        end := 0;
        RemoveAbsent(bindings, name);
      }
      reach := Furthest(reach, end);
    }

    /** `env_get`; None stands for NULL. */
    method Get(name: seq<char>) returns (r: Option<seq<char>>)
      requires Valid()
      ensures r == Lookup(bindings, name)
    {
      var found, ofs, len;
      ghost var k;
      found, ofs, len, k := Find(name);
      if found {
        var ok, curName, val, next := Load(ofs, k);
        LookupAt(bindings, k);
        return if ok then Some(val) else None;
      }
      RemoveAbsent(bindings, name);
      return None;
    }

    /** Write an entry behind the live ones: the two memcpy calls of env_set. */
    method PutIn(name: seq<char>, value: seq<char>)
      requires Valid() && cur + |name| + 1 + |value| + 1 <= max
      modifies this`cur, heap
      ensures cur == old(cur) + |name| + 1 + |value| + 1
      ensures heap[..cur] == old(heap[..cur]) + Entry(Binding(name, value))
    {
      var at := cur;
      CopyString(heap, at, name);
      at := at + |name| + 1;
      assert heap[..at] == old(heap[..cur]) + (name + [NUL]);
      ghost var first := heap[..at];
      CopyString(heap, at, value);
      at := at + |value| + 1;
      assert heap[..at] == first + (value + [NUL]);
      cur := at;
    }

    /** The second half of env_set, which adds a binding at the end. */
    method Append(name: seq<char>, value: seq<char>)
      requires Valid() && NulFree(name) && NulFree(value)
      requires cur + |name| + 1 + |value| + 1 <= max
      requires forall b :: b in bindings ==> b.name != name
      modifies this`cur, this`bindings, heap
      ensures Valid() && bindings == old(bindings) + [Binding(name, value)]
    {
      PutIn(name, value);
      EncodeSnoc(bindings, Binding(name, value));
      assert forall i :: 0 <= i < |bindings| ==> bindings[i] in bindings;
      bindings := bindings + [Binding(name, value)];
    }

    /** The room for a new value is what is free and what the old one takes. */
    lemma PutFits(name: seq<char>, value: seq<char>)
      requires Valid()
      ensures var fits := Fits(bindings, max, Binding(name, value));
              && ((forall b :: b in bindings ==> b.name != name) ==> (fits <==> cur + |name| + |value| + 2 <= max))
              && forall b :: b in bindings && b.name == name ==> (fits <==> cur - |b.value| + |value| <= max)
    {
      var added := Binding(name, value);
      Accounting();
      SizeOne(added);
      if k: nat :| k < |bindings| && bindings[k].name == name {
        SizeWithout(bindings, k);
        RemoveAt(bindings, k);
        forall b | b in bindings && b.name == name ensures b == bindings[k] {
          var j: nat :| j < |bindings| && bindings[j] == b;
          SameName(bindings, j, k);
        }
      } else {
        RemoveAbsent(bindings, name);
      }
    }

    /** `env_set`; true stands for 0. */
    method Put(name: seq<char>, value: seq<char>) returns (ok: bool, ghost end: nat)
      requires Valid() && NulFree(name) && NulFree(value)
      modifies this, heap
      ensures Valid()
      ensures end <= max <==> MoveFits(old(bindings), max, name)
      ensures reach == Furthest(old(reach), end)
      ensures ok <==> Fits(old(bindings), max, Binding(name, value))
      ensures bindings == Set(old(bindings), max, Binding(name, value))
      ensures (forall b :: b in old(bindings) ==> b.name != name) ==>
                (ok <==> old(cur) + |name| + |value| + 2 <= max)
      ensures forall b :: b in old(bindings) && b.name == name ==>
                (ok <==> old(cur) - |b.value| + |value| <= max)
    {
      PutFits(name, value);
      RemoveKeeps(bindings, name);
      SizeOne(Binding(name, value));
      end := Delete(name);
      Accounting();
      if cur + |name| + 1 + |value| + 1 > max {
        ok := false;
        return;
      }
      Append(name, value);
      ok := true;
    }
  }

  /** `struct env_iter`; `visited` counts the bindings already returned. */
  class Iter {
    var i: nat
    ghost var visited: nat

    constructor ()
      ensures i == 0 && visited == 0
    {
      i, visited := 0, 0;
    }

    ghost predicate On(env: Environment)
      reads this, env, env.heap
    {
      env.Valid() && visited <= |env.bindings| && i == Offset(env.bindings, visited)
    }

    /** `env_next`: the bindings come one by one in the order of the list, then nothing. */
    method Next(env: Environment) returns (more: bool, name: seq<char>, value: seq<char>)
      requires On(env)
      modifies this
      ensures On(env)
      ensures more <==> old(visited) < |env.bindings|
      ensures visited == old(visited) + if more then 1 else 0
      ensures more ==> Binding(name, value) == env.bindings[old(visited)]
    {
      env.End();
      if visited < |env.bindings| {
        StringsOf(env.bindings, visited);
      }
      if i >= env.cur {
        return false, [], [];
      }
      var ok, next;
      ok, name, value, next := env.Load(i, visited);
      if !ok {
        return false, [], [];
      }
      i, visited := next, visited + 1;
      return true, name, value;
    }
  }

  /** A fresh iterator run to its end: every binding once, in the order of the list. */
  method Collect(env: Environment) returns (all: seq<Binding>)
    requires env.Valid()
    ensures all == env.bindings
  {
    var iter := new Iter();
    all := [];
    var more := true;
    while more
      invariant iter.On(env) && fresh(iter)
      invariant all == env.bindings[..iter.visited]
      invariant !more ==> iter.visited == |env.bindings|
      decreases |env.bindings| - iter.visited, more
    {
      var name, value;
      more, name, value := iter.Next(env);
      if more {
        all := all + [Binding(name, value)];
      }
    }
  }
}
