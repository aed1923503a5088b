/** C characters, NUL-terminated strings and unsigned counters.

    A C `char` is modelled by Dafny's `char`.  Nothing below depends on how many values a
    character can take: the code only ever compares a byte with the few named here. */
module Bytes {

  datatype Option<+T> = None | Some(value: T)

  const NUL: char := '\0'
  const CR: char := '\r'
  const LF: char := '\n'
  const SP: char := ' '
  const TAB: char := '\t'
  const VT: char := '\U{0B}'
  const FF: char := '\U{0C}'

  /** `isspace` in the C locale. */
  predicate IsSpace(c: char)
    ensures IsSpace(c) <==> c as int == 32 || 9 <= c as int <= 13
  {
    c == SP || c == TAB || c == LF || c == VT || c == FF || c == CR
  }

  /** Every character of `s` is in the class `f`. */
  predicate All(s: seq<char>, f: char -> bool) {
    forall i :: 0 <= i < |s| ==> f(s[i])
  }

  lemma AllSnoc(s: seq<char>, c: char, f: char -> bool)
    ensures All(s + [c], f) <==> All(s, f) && f(c)
  {
    assert (s + [c])[|s|] == c;
    if All(s + [c], f) {
      forall i | 0 <= i < |s| ensures f(s[i]) {
        assert (s + [c])[i] == s[i];
      }
    }
  }

  lemma AllPrefix(s: seq<char>, t: seq<char>, f: char -> bool)
    requires s <= t && All(t, f)
    ensures All(s, f)
  {
    forall i | 0 <= i < |s| ensures f(s[i]) {
      assert t[i] == s[i];
    }
  }

  lemma AllSuffix(s: seq<char>, n: nat, f: char -> bool)
    requires n <= |s| && All(s, f)
    ensures All(s[n..], f)
  {
    forall i | 0 <= i < |s[n..]| ensures f(s[n..][i]) {
      assert s[n..][i] == s[n + i];
    }
  }

  /** A class is closed under dropping the last byte. */
  lemma DropLast(s: seq<char>, f: char -> bool)
    requires s != [] && All(s, f)
    ensures All(s[..|s| - 1], f) && s == s[..|s| - 1] + [s[|s| - 1]] && f(s[|s| - 1])
  {
    AllPrefix(s[..|s| - 1], s, f);
  }

  lemma Assoc<T>(a: seq<T>, b: seq<T>, c: seq<T>)
    ensures a + (b + c) == (a + b) + c
  {
  }

  lemma Assoc4<T>(a: seq<T>, b: seq<T>, c: seq<T>, d: seq<T>)
    ensures a + (b + c + d) == a + b + c + d
    ensures a + (b + (c + d)) == a + b + c + d
  {
  }

  lemma SplitAt<T>(s: seq<T>, n: nat)
    requires n <= |s|
    ensures s[..n] + s[n..] == s
  {
  }

  /** Taking over the first of the coming bytes. */
  lemma Shift<T>(read: seq<T>, longer: seq<T>, input: seq<T>)
    requires input != [] && longer == read + [input[0]]
    ensures longer + input[1..] == read + input
  {
    assert [input[0]] + input[1..] == input;
    Assoc(read, [input[0]], input[1..]);
  }

  lemma TwoMore<T>(a: seq<T>, b: seq<T>, x: T, y: T)
    ensures a + (b + [x, y]) == (a + (b + [x])) + [y]
  {
  }

  predicate NulFree(s: seq<char>) {
    forall i :: 0 <= i < |s| ==> s[i] != NUL
  }

  /** The increment of a 32-bit `unsigned` counter. */
  function Inc(n: nat): nat {
    (n + 1) % 0x1_0000_0000
  }

  /** The C string that starts at the first byte of `s`: what precedes the first NUL. */
  function CStr(s: seq<char>): (r: seq<char>)
    ensures r <= s && NulFree(r)
    ensures |r| < |s| ==> s[|r|] == NUL
  {
    if s == [] || s[0] == NUL then [] else [s[0]] + CStr(s[1..])
  }

  /** The bytes that follow a NUL are invisible to a C string. */
  lemma {:induction false} CStrStopsAtNul(live: seq<char>, whole: seq<char>)
    requires live <= whole
    requires NUL in live
    ensures CStr(whole) == CStr(live)
  {
    if live[0] != NUL {
      CStrStopsAtNul(live[1..], whole[1..]);
    }
  }

  /** A NUL-free sequence is its own C string, terminated or not. */
  lemma {:induction false} CStrOfNulFree(s: seq<char>, t: seq<char>)
    requires NulFree(s)
    requires t == [] || t[0] == NUL
    ensures CStr(s + t) == s
  {
    if s != [] {
      assert (s + t)[1..] == s[1..] + t;
      CStrOfNulFree(s[1..], t);
      assert s == [s[0]] + s[1..];
    } else {
      assert s + t == t;
    }
  }

  /** A NUL at the end does not change a C string. */
  lemma {:induction false} CStrOfTerminated(s: seq<char>)
    ensures CStr(s + [NUL]) == CStr(s)
  {
    if s != [] {
      assert (s + [NUL])[1..] == s[1..] + [NUL];
      CStrOfTerminated(s[1..]);
    }
  }

  /** The concatenation of a list of chunks. */
  function Flatten(chunks: seq<seq<char>>): seq<char> {
    if chunks == [] then [] else chunks[0] + Flatten(chunks[1..])
  }

  // ---------- Strings cut at a separator

  /** The components between the separators, one more than there are separators. */
  function Split(s: seq<char>, sep: char): (r: seq<seq<char>>)
    ensures r != [] && forall c :: c in r ==> sep !in c
  {
    if s == [] then [[]]
    else
      var rest := Split(s[1..], sep);
      if s[0] == sep then [[]] + rest else [[s[0]] + rest[0]] + rest[1..]
  }

  /** The components with a separator between each two. */
  function Joined(cs: seq<seq<char>>, sep: char): seq<char> {
    if cs == [] then [] else if |cs| == 1 then cs[0] else cs[0] + [sep] + Joined(cs[1..], sep)
  }

  lemma {:induction false} SplitOne(c: seq<char>, sep: char)
    requires sep !in c
    ensures Split(c, sep) == [c]
  {
    if c != [] {
      SplitOne(c[1..], sep);
      assert [c[0]] + c[1..] == c;
    }
  }

  /** A separator cuts. */
  lemma {:induction false} SplitAtSep(a: seq<char>, b: seq<char>, sep: char)
    ensures Split(a + ([sep] + b), sep) == Split(a, sep) + Split(b, sep)
  {
    var s := a + ([sep] + b);
    if a == [] {
      assert s == [sep] + b && s[1..] == b;
    } else {
      assert s[0] == a[0] && s[1..] == a[1..] + ([sep] + b);
      SplitAtSep(a[1..], b, sep);
      var ra, rb := Split(a[1..], sep), Split(b, sep);
      if a[0] == sep {
        Assoc([[]], ra, rb);
      } else {
        assert (ra + rb)[0] == ra[0] && (ra + rb)[1..] == ra[1..] + rb;
        Assoc([[a[0]] + ra[0]], ra[1..], rb);
      }
    }
  }

  /** Joining undoes cutting. */
  lemma {:induction false} JoinedSplit(s: seq<char>, sep: char)
    ensures Joined(Split(s, sep), sep) == s
  {
    if s != [] {
      JoinedSplit(s[1..], sep);
      var rest := Split(s[1..], sep);
      assert s == [s[0]] + s[1..];
      if s[0] == sep {
        JoinedCons([], rest, sep);
      } else {
        JoinedHead(s[0], rest, sep);
      }
    }
  }

  lemma JoinedCons(c: seq<char>, cs: seq<seq<char>>, sep: char)
    requires cs != []
    ensures Joined([c] + cs, sep) == c + [sep] + Joined(cs, sep)
  {
    assert ([c] + cs)[1..] == cs;
  }

  lemma JoinedHead(x: char, cs: seq<seq<char>>, sep: char)
    requires cs != []
    ensures Joined([[x] + cs[0]] + cs[1..], sep) == [x] + Joined(cs, sep)
  {
    if |cs| > 1 {
      assert ([[x] + cs[0]] + cs[1..])[1..] == cs[1..];
      assert ([x] + cs[0]) + [sep] + Joined(cs[1..], sep) == [x] + (cs[0] + [sep] + Joined(cs[1..], sep));
    }
  }

  lemma {:induction false} JoinedAppend(a: seq<seq<char>>, b: seq<seq<char>>, sep: char)
    requires a != [] && b != []
    ensures Joined(a + b, sep) == Joined(a, sep) + ([sep] + Joined(b, sep))
  {
    if |a| == 1 {
      assert a + b == [a[0]] + b;
      JoinedCons(a[0], b, sep);
      Assoc(a[0], [sep], Joined(b, sep));
    } else {
      assert a == [a[0]] + a[1..] && a + b == [a[0]] + (a[1..] + b);
      JoinedAppend(a[1..], b, sep);
      JoinedCons(a[0], a[1..] + b, sep);
      Assoc(a[0] + [sep], Joined(a[1..], sep), [sep] + Joined(b, sep));
    }
  }
}
