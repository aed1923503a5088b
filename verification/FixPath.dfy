/** Path cleaning: util_fixpath of util.c and the path that mod_static_files.c opens. */
module FixPath {
  import opened Bytes

  const SLASH: char := '/'

  // ---------- Tokens: the path cut after each slash

  /** The length of the first token. */
  function Cut(path: seq<char>): (n: nat)
    ensures n <= |path|
    ensures path != [] ==> n > 0
    ensures forall i :: 0 <= i < n - 1 ==> path[i] != SLASH
    ensures 0 < n < |path| ==> path[n - 1] == SLASH
  {
    if path == [] then 0 else if path[0] == SLASH then 1 else 1 + Cut(path[1..])
  }

  function Tokens(path: seq<char>): seq<seq<char>>
    decreases |path|
  {
    if path == [] then [] else [path[..Cut(path)]] + Tokens(path[Cut(path)..])
  }

  predicate IsUp(t: seq<char>) {
    t == ['.', '.'] || t == ['.', '.', SLASH]
  }

  predicate IsDot(t: seq<char>) {
    t == ['.'] || t == ['.', SLASH]
  }

  predicate Dropped(t: seq<char>) {
    IsUp(t) || IsDot(t)
  }

  /** What is left of the tokens when the dropped ones are taken out. */
  function Kept(path: seq<char>): seq<char>
    decreases |path|
  {
    if path == [] then []
    else
      var t, rest := path[..Cut(path)], path[Cut(path)..];
      (if Dropped(t) then [] else t) + Kept(rest)
  }

  // ---------- The output

  predicate Absolute(path: seq<char>) {
    path != [] && path[0] == SLASH
  }

  /** The output after `out` when `path` is still to be read.  A `..` in a relative path empties an
      output that is just a slash; otherwise it changes nothing. */
  function Clean(absolute: bool, out: seq<char>, path: seq<char>): seq<char>
    decreases |path|
  {
    if path == [] then out
    else
      var t, rest := path[..Cut(path)], path[Cut(path)..];
      if IsUp(t) then Clean(absolute, if !absolute && out == [SLASH] then [] else out, rest)
      else if IsDot(t) then Clean(absolute, out, rest)
      else Clean(absolute, out + t, rest)
  }

  function Cleaned(path: seq<char>): seq<char> {
    Clean(Absolute(path), [], path)
  }

  /** When the call succeeds. */
  predicate Succeeds(path: seq<char>, destLen: nat) {
    |Cleaned(path)| < destLen && (destLen == 1 ==> Kept(path) == [])
  }

  // ---------- Absolute paths are filtered, relative ones with one exception

  lemma {:induction false} AbsoluteIsKept(out: seq<char>, path: seq<char>)
    ensures Clean(true, out, path) == out + Kept(path)
    decreases |path|
  {
    if path != [] {
      var t, rest := path[..Cut(path)], path[Cut(path)..];
      if Dropped(t) {
        AbsoluteIsKept(out, rest);
        assert [] + Kept(rest) == Kept(rest);
      } else {
        AbsoluteIsKept(out + t, rest);
        Assoc(out, t, Kept(rest));
      }
    }
  }

  /** A `..` is met when the output is just a slash. */
  predicate UpAtRoot(out: seq<char>, path: seq<char>)
    decreases |path|
  {
    path != [] &&
    var t, rest := path[..Cut(path)], path[Cut(path)..];
    (IsUp(t) && out == [SLASH]) || UpAtRoot(if Dropped(t) then out else out + t, rest)
  }

  lemma {:induction false} CleanIsShort(absolute: bool, out: seq<char>, path: seq<char>)
    ensures |Clean(absolute, out, path)| <= |out| + |Kept(path)|
    decreases |path|
  {
    if path != [] {
      var t, rest := path[..Cut(path)], path[Cut(path)..];
      if IsUp(t) {
        CleanIsShort(absolute, if !absolute && out == [SLASH] then [] else out, rest);
      } else if IsDot(t) {
        CleanIsShort(absolute, out, rest);
      } else {
        CleanIsShort(absolute, out + t, rest);
      }
    }
  }

  /** A relative path is filtered exactly when that does not happen. */
  lemma {:induction false} RelativeIsKept(out: seq<char>, path: seq<char>)
    ensures Clean(false, out, path) == out + Kept(path) <==> !UpAtRoot(out, path)
    decreases |path|
  {
    if path != [] {
      var t, rest := path[..Cut(path)], path[Cut(path)..];
      if IsUp(t) && out == [SLASH] {
        CleanIsShort(false, [], rest);
      } else if Dropped(t) {
        RelativeIsKept(out, rest);
        assert [] + Kept(rest) == Kept(rest);
      } else {
        RelativeIsKept(out + t, rest);
        Assoc(out, t, Kept(rest));
      }
    }
  }

  /** Main result: what the output is, in terms of the tokens alone. */
  lemma CleanedIsKept(path: seq<char>)
    ensures Absolute(path) ==> Cleaned(path) == Kept(path)
    ensures !Absolute(path) ==> (Cleaned(path) == Kept(path) <==> !UpAtRoot([], path))
  {
    AbsoluteIsKept([], path);
    RelativeIsKept([], path);
    assert [] + Kept(path) == Kept(path);
  }

  // ---------- Relative paths in closed form

  /** The next component that is not `.` is `..`. */
  predicate UpFollows(ts: seq<seq<char>>) {
    ts != [] && (IsUp(ts[0]) || (IsDot(ts[0]) && UpFollows(ts[1..])))
  }

  /** The first token leaves nothing behind: a dropped one, or a lone slash that a `..` takes back. */
  predicate Lost(ts: seq<seq<char>>)
    requires ts != []
  {
    Dropped(ts[0]) || (ts[0] == [SLASH] && UpFollows(ts[1..]))
  }

  /** The tokens from the first on that leaves something behind. */
  function Settled(ts: seq<seq<char>>): seq<seq<char>> {
    if ts == [] || !Lost(ts) then ts else Settled(ts[1..])
  }

  /** The tokens that are not dropped, in one string. */
  function Join(ts: seq<seq<char>>): seq<char> {
    if ts == [] then [] else (if Dropped(ts[0]) then [] else ts[0]) + Join(ts[1..])
  }

  lemma {:induction false} KeptIsJoin(path: seq<char>)
    ensures Kept(path) == Join(Tokens(path))
    decreases |path|
  {
    if path != [] {
      KeptIsJoin(path[Cut(path)..]);
      TokensSplit(path);
    }
  }

  lemma TokensSplit(path: seq<char>)
    requires path != []
    ensures Tokens(path) != [] && Tokens(path)[0] == path[..Cut(path)]
    ensures Tokens(path)[1..] == Tokens(path[Cut(path)..])
  {
  }

  /** An output that is more than a slash only grows. */
  lemma {:induction false} LongOutputGrows(out: seq<char>, path: seq<char>)
    requires out != [] && out != [SLASH]
    ensures Clean(false, out, path) == out + Join(Tokens(path))
    decreases |path|
  {
    KeptIsJoin(path);
    if UpAtRoot(out, path) {
      NeverAtRoot(out, path);
    }
    RelativeIsKept(out, path);
  }

  lemma {:induction false} NeverAtRoot(out: seq<char>, path: seq<char>)
    requires out != [] && out != [SLASH]
    ensures !UpAtRoot(out, path)
    decreases |path|
  {
    if path != [] {
      var t, rest := path[..Cut(path)], path[Cut(path)..];
      NeverAtRoot(if Dropped(t) then out else out + t, rest);
    }
  }

  /** From an output that is a slash, and from an empty one. */
  lemma {:induction false} SlashOutput(path: seq<char>)
    ensures Clean(false, [SLASH], path) ==
            if UpFollows(Tokens(path)) then Join(Settled(Tokens(path))) else [SLASH] + Join(Tokens(path))
    decreases |path|
  {
    if path != [] {
      var t, rest := path[..Cut(path)], path[Cut(path)..];
      TokensSplit(path);
      if IsUp(t) {
        EmptyOutput(rest);
      } else if IsDot(t) {
        SlashOutput(rest);
        assert [] + Join(Tokens(rest)) == Join(Tokens(rest));
      } else {
        LongOutputGrows([SLASH] + t, rest);
        Assoc([SLASH], t, Join(Tokens(rest)));
      }
    }
  }

  lemma {:induction false} EmptyOutput(path: seq<char>)
    ensures Clean(false, [], path) == Join(Settled(Tokens(path)))
    decreases |path|
  {
    if path != [] {
      var t, rest := path[..Cut(path)], path[Cut(path)..];
      TokensSplit(path);
      assert [] + t == t;
      if Dropped(t) {
        EmptyOutput(rest);
      } else if t == [SLASH] {
        SlashOutput(rest);
      } else {
        LongOutputGrows(t, rest);
      }
    }
  }

  /** The output of a relative path starts with a slash: its first settled token is a lone one. */
  predicate BecomesAbsolute(path: seq<char>) {
    var ts := Settled(Tokens(path));
    ts != [] && ts[0] == [SLASH]
  }

  lemma {:induction false} TokensAreTokens(path: seq<char>)
    ensures forall t :: t in Tokens(path) ==> IsToken(t)
    decreases |path|
  {
    if path != [] {
      TokensAreTokens(path[Cut(path)..]);
    }
  }

  lemma {:induction false} SettledIsSuffix(ts: seq<seq<char>>)
    ensures forall t :: t in Settled(ts) ==> t in ts
    ensures Settled(ts) != [] ==> !Lost(Settled(ts))
  {
    if ts != [] && Lost(ts) {
      SettledIsSuffix(ts[1..]);
    }
  }

  /** Main result: a relative path loses its dot components and, at its start, the lone slashes that a
      `..` takes back; and so it becomes absolute exactly when a lone slash is what remains in front. */
  lemma RelativeIsTrimmed(path: seq<char>)
    requires !Absolute(path)
    ensures Cleaned(path) == Join(Settled(Tokens(path)))
    ensures Absolute(Cleaned(path)) <==> BecomesAbsolute(path)
  {
    EmptyOutput(path);
    var ts := Settled(Tokens(path));
    TokensAreTokens(path);
    SettledIsSuffix(Tokens(path));
    if ts != [] {
      assert ts[0] in ts && IsToken(ts[0]);
      assert Join(ts)[0] == ts[0][0];
      assert ts[0][0] == SLASH ==> |ts[0]| == 1;
    }
  }

  /** A relative path that becomes absolute. */
  lemma SlashIsUncovered()
    ensures !Absolute(".//x") && Cleaned(".//x") == "/x"
  {
    LeadingDot("/x");
    var x: seq<char> := "/x";
    assert x[1..] == "x";
  }

  /** A relative path that is not just filtered. */
  lemma SlashIsTakenBack()
    ensures Kept(".//..") == "/" && Cleaned(".//..") == []
  {
    LeadingDot("/..");
    var up: seq<char> := "/..";
    assert up[1..] == "..";
  }

  /** Taking the first token off. */
  lemma KeptStep(t: seq<char>, rest: seq<char>)
    requires IsToken(t) && (t[|t| - 1] == SLASH || rest == [])
    ensures Kept(t + rest) == (if Dropped(t) then [] else t) + Kept(rest)
  {
    CutOfToken(t, rest);
    assert (t + rest)[..|t|] == t && (t + rest)[|t|..] == rest;
  }

  /** Absolute paths in which `..` is removed, not resolved: the component before it stays. */
  lemma UpIsNotResolved(name: seq<char>, rest: seq<char>)
    requires IsToken(name) && name[|name| - 1] == SLASH && !Dropped(name)
    ensures Cleaned([SLASH] + (name + ("../" + rest))) == [SLASH] + (name + Kept(rest))
  {
    var path := [SLASH] + (name + ("../" + rest));
    KeptStep("../", rest);
    KeptStep(name, "../" + rest);
    KeptStep([SLASH], name + ("../" + rest));
    CleanedIsKept(path);
    assert [] + Kept(rest) == Kept(rest);
  }

  /** A one-byte buffer does not take a relative path whose output is empty only in the end. */
  lemma OneByteBuffer()
    ensures Cleaned(".//..") == [] && !Succeeds(".//..", 1)
  {
    SlashIsTakenBack();
  }

  lemma LeadingDot(path: seq<char>)
    ensures Cut("./" + path) == 2
    ensures Cleaned("./" + path) == Clean(false, [], path) && Kept("./" + path) == Kept(path)
  {
    var dotted := "./" + path;
    assert dotted[1..][1..] == path == dotted[2..];
    assert [] + Kept(path) == Kept(path);
  }

  lemma {:induction false} KeptIsShort(path: seq<char>)
    ensures |Kept(path)| <= |path|
    decreases |path|
  {
    if path != [] {
      KeptIsShort(path[Cut(path)..]);
    }
  }

  // ---------- The output has no dot components, and cleaning it again changes nothing

  predicate DotFree(path: seq<char>) {
    forall t :: t in Tokens(path) ==> !Dropped(t)
  }

  /** A token may follow. */
  predicate AtBoundary(out: seq<char>) {
    out == [] || out[|out| - 1] == SLASH
  }

  predicate IsToken(t: seq<char>) {
    t != [] && forall i :: 0 <= i < |t| - 1 ==> t[i] != SLASH
  }

  lemma {:induction false} CutOfToken(t: seq<char>, rest: seq<char>)
    requires IsToken(t) && (t[|t| - 1] == SLASH || rest == [])
    ensures Cut(t + rest) == |t|
  {
    if |t| > 1 {
      assert (t + rest)[1..] == t[1..] + rest;
      CutOfToken(t[1..], rest);
    }
  }

  lemma {:induction false} TokensAppend(out: seq<char>, t: seq<char>)
    requires AtBoundary(out) && IsToken(t)
    ensures Tokens(out + t) == Tokens(out) + [t]
    decreases |out|
  {
    if out == [] {
      assert out + t == t + [];
      CutOfToken(t, []);
      assert t[..|t|] == t && t[|t|..] == [];
    } else {
      var first, rest := out[..Cut(out)], out[Cut(out)..];
      assert out + t == first + (rest + t);
      assert first[|first| - 1] == SLASH by {
        if rest == [] { assert first == out; }
      }
      CutOfToken(first, rest + t);
      assert (out + t)[Cut(out)..] == rest + t;
      assert AtBoundary(rest) by {
        if rest != [] { assert rest[|rest| - 1] == out[|out| - 1]; }
      }
      TokensAppend(rest, t);
      Assoc([first], Tokens(rest), [t]);
    }
  }

  lemma {:induction false} CleanIsDotFree(absolute: bool, out: seq<char>, path: seq<char>)
    requires AtBoundary(out) && DotFree(out)
    ensures DotFree(Clean(absolute, out, path))
    decreases |path|
  {
    if path != [] {
      var t, rest := path[..Cut(path)], path[Cut(path)..];
      if IsUp(t) {
        CleanIsDotFree(absolute, if !absolute && out == [SLASH] then [] else out, rest);
      } else if IsDot(t) {
        CleanIsDotFree(absolute, out, rest);
      } else {
        TokensAppend(out, t);
        if rest != [] {
          assert (out + t)[|out + t| - 1] == t[|t| - 1];
          CleanIsDotFree(absolute, out + t, rest);
        }
      }
    }
  }

  lemma DotFreeTail(path: seq<char>)
    requires DotFree(path) && path != []
    ensures !Dropped(path[..Cut(path)]) && DotFree(path[Cut(path)..])
  {
    TokensSplit(path);
    var ts := Tokens(path);
    assert ts[0] in ts;
    forall u | u in ts[1..] ensures !Dropped(u) {
      assert u in ts;
    }
  }

  lemma {:induction false} DotFreeIsKept(path: seq<char>)
    requires DotFree(path)
    ensures Kept(path) == path
    decreases |path|
  {
    if path != [] {
      DotFreeTail(path);
      DotFreeIsKept(path[Cut(path)..]);
      assert path == path[..Cut(path)] + path[Cut(path)..];
    }
  }

  lemma {:induction false} DotFreeHasNoUp(out: seq<char>, path: seq<char>)
    requires DotFree(path)
    ensures !UpAtRoot(out, path)
    decreases |path|
  {
    if path != [] {
      DotFreeTail(path);
      DotFreeHasNoUp(out + path[..Cut(path)], path[Cut(path)..]);
    }
  }

  /** Main result: the output has no `.` or `..` component, is no longer than the path, and is left
      as it is by a second call with the same size. */
  lemma CleanedIsClean(path: seq<char>, destLen: nat)
    ensures DotFree(Cleaned(path))
    ensures |Cleaned(path)| <= |path|
    ensures Cleaned(Cleaned(path)) == Cleaned(path)
    ensures Succeeds(path, destLen) ==> Succeeds(Cleaned(path), destLen)
  {
    var out := Cleaned(path);
    CleanIsDotFree(Absolute(path), [], path);
    CleanIsShort(Absolute(path), [], path);
    KeptIsShort(path);
    DotFreeIsKept(out);
    DotFreeHasNoUp([], out);
    CleanedIsKept(out);
  }

  // ---------- The same in components, as they stand between slashes

  predicate IsDots(c: seq<char>) {
    c == "." || c == ".."
  }

  /** Components without the dots; the last one leaves the end of a path behind. */
  function WithoutDots(cs: seq<seq<char>>): (r: seq<seq<char>>)
    ensures forall c :: c in r ==> !IsDots(c)
  {
    if cs == [] then []
    else if |cs| == 1 then [if IsDots(cs[0]) then [] else cs[0]]
    else (if IsDots(cs[0]) then [] else [cs[0]]) + WithoutDots(cs[1..])
  }

  /** The first token is the first component and, unless the path ends with it, its slash. */
  lemma FirstComponent(path: seq<char>) returns (c: seq<char>)
    requires path != []
    ensures SLASH !in c
    ensures var t := path[..Cut(path)];
            (t == c + [SLASH] || (t == c && path[Cut(path)..] == [])) && (Dropped(t) <==> IsDots(c))
  {
    var t := path[..Cut(path)];
    assert t != [] && forall i :: 0 <= i < |t| - 1 ==> t[i] == path[i];
    if t[|t| - 1] == SLASH {
      c := t[..|t| - 1];
      assert t == c + [SLASH];
      if IsDots(c) {
        assert IsDot(t) || IsUp(t);
      }
    } else {
      c := t;
    }
  }

  lemma {:induction false} KeptByComponent(path: seq<char>)
    ensures Split(Kept(path), '/') == WithoutDots(Split(path, '/'))
    decreases |path|
  {
    if path != [] {
      var t, rest := path[..Cut(path)], path[Cut(path)..];
      var c := FirstComponent(path);
      assert path == t + rest;
      if t == c + [SLASH] {
        KeptByComponent(rest);
        TakeComponent(c, rest);
      } else {
        SplitOne(c, '/');
        assert rest == [] && path == c;
        assert Kept(path) == if IsDots(c) then [] else c;
      }
    }
  }

  lemma WithoutDotsCons(c: seq<char>, cs: seq<seq<char>>)
    requires cs != []
    ensures WithoutDots([c] + cs) == (if IsDots(c) then [] else [c]) + WithoutDots(cs)
  {
    assert ([c] + cs)[1..] == cs;
  }

  /** Cutting the first component off. */
  lemma SplitFirst(c: seq<char>, rest: seq<char>)
    requires SLASH !in c
    ensures Split((c + [SLASH]) + rest, '/') == [c] + Split(rest, '/')
  {
    SplitOne(c, '/');
    SplitAtSep(c, rest, '/');
    Assoc(c, [SLASH], rest);
  }

  lemma TakeComponent(c: seq<char>, rest: seq<char>)
    requires SLASH !in c && Split(Kept(rest), '/') == WithoutDots(Split(rest, '/'))
    ensures var t := c + [SLASH];
            Split((if IsDots(c) then [] else t) + Kept(rest), '/') == WithoutDots(Split(t + rest, '/'))
  {
    SplitFirst(c, rest);
    WithoutDotsCons(c, Split(rest, '/'));
    if IsDots(c) {
      assert [] + Kept(rest) == Kept(rest);
      assert [] + WithoutDots(Split(rest, '/')) == WithoutDots(Split(rest, '/'));
    } else {
      SplitFirst(c, Kept(rest));
    }
  }

  /** Main result: an absolute path keeps, in their order, the components between its slashes that are
      neither `.` nor `..`, and no output has such a component. */
  lemma CleanedByComponent(path: seq<char>)
    ensures Absolute(path) ==> Split(Cleaned(path), '/') == WithoutDots(Split(path, '/'))
    ensures forall c :: c in Split(Cleaned(path), '/') ==> c != "." && c != ".."
  {
    CleanedIsKept(path);
    KeptByComponent(path);
    CleanedIsClean(path, 0);
    DotFreeIsKept(Cleaned(path));
    KeptByComponent(Cleaned(path));
  }

  // ---------- The function in place

  /** The byte at `i`, the NUL behind the string included. */
  function At(s: seq<char>, i: nat): char {
    if i < |s| then s[i] else NUL
  }

  /** The lookahead for `..` */
  predicate UpAhead(path: seq<char>, i: nat) {
    At(path, i) == '.' && At(path, i + 1) == '.' && (At(path, i + 2) == SLASH || At(path, i + 2) == NUL)
  }

  /** The lookahead for `.` */
  predicate DotAhead(path: seq<char>, i: nat) {
    At(path, i) == '.' && (At(path, i + 1) == SLASH || At(path, i + 1) == NUL)
  }

  /** Both see the first token. */
  lemma LookaheadUp(path: seq<char>)
    requires NulFree(path) && path != []
    ensures UpAhead(path, 0) <==> IsUp(path[..Cut(path)])
    ensures UpAhead(path, 0) ==> Cut(path) == if At(path, 2) == SLASH then 3 else 2
  {
    if |path| >= 2 && path[0] == '.' && path[1] == '.' {
      assert Cut(path) == 2 + Cut(path[2..]) by {
        assert path[1..][1..] == path[2..];
      }
      if |path| > 2 {
        assert path[2..][0] == path[2];
      }
    }
    if IsUp(path[..Cut(path)]) {
      assert path[0] == path[..Cut(path)][0] && path[1] == path[..Cut(path)][1];
    }
  }

  lemma LookaheadDot(path: seq<char>)
    requires NulFree(path) && path != []
    ensures DotAhead(path, 0) <==> IsDot(path[..Cut(path)])
    ensures DotAhead(path, 0) ==> Cut(path) == if At(path, 1) == SLASH then 2 else 1
  {
    if path[0] == '.' {
      assert Cut(path) == 1 + Cut(path[1..]);
      if |path| > 1 {
        assert path[1..][0] == path[1];
      }
    }
    if IsDot(path[..Cut(path)]) {
      assert path[0] == path[..Cut(path)][0];
    }
  }

  lemma Lookahead(path: seq<char>, i: nat)
    requires NulFree(path) && i < |path|
    ensures var rest := path[i..];
            && (UpAhead(path, i) <==> IsUp(rest[..Cut(rest)]))
            && (UpAhead(path, i) ==> Cut(rest) == if At(path, i + 2) == SLASH then 3 else 2)
            && (DotAhead(path, i) <==> IsDot(rest[..Cut(rest)]))
            && (DotAhead(path, i) ==> Cut(rest) == if At(path, i + 1) == SLASH then 2 else 1)
  {
    LookaheadUp(path[i..]);
    LookaheadDot(path[i..]);
  }

  /** The output when, unless `fresh`, the rest of a token has to be copied first. */
  function Resume(absolute: bool, atStart: bool, out: seq<char>, path: seq<char>): seq<char> {
    if atStart then Clean(absolute, out, path) else Clean(absolute, out + path[..Cut(path)], path[Cut(path)..])
  }

  /** Copying one byte of a token that is kept. */
  lemma CopyOne(absolute: bool, atStart: bool, out: seq<char>, path: seq<char>)
    requires path != [] && (atStart ==> !Dropped(path[..Cut(path)]))
    ensures Resume(absolute, path[0] == SLASH, out + [path[0]], path[1..]) == Resume(absolute, atStart, out, path)
  {
    var c, rest := path[0], path[1..];
    var t := path[..Cut(path)];
    if c == SLASH {
      assert t == [c];
    } else {
      assert t == [c] + rest[..Cut(rest)];
      assert path[Cut(path)..] == rest[Cut(rest)..];
      Assoc(out, [c], rest[..Cut(rest)]);
    }
  }

  lemma {:induction false} CleanGrows(absolute: bool, out: seq<char>, path: seq<char>)
    requires absolute || |out| != 1
    ensures |Clean(absolute, out, path)| >= |out|
    decreases |path|
  {
    if path != [] {
      var t, rest := path[..Cut(path)], path[Cut(path)..];
      if Dropped(t) {
        CleanGrows(absolute, out, rest);
      } else if out != [] || absolute || |t| != 1 {
        CleanGrows(absolute, out + t, rest);
      }
    }
  }

  /** The length up to and including the last slash. */
  function ToLastSlash(s: seq<char>): nat {
    if AtBoundary(s) then |s| else ToLastSlash(s[..|s| - 1])
  }

  /** Backing up the output at a `..`: to the last slash, which is then written again unless that
      would make a relative path absolute. */
  method BackUp(dest: array<char>, lo: nat, out: nat, absolute: bool) returns (r: nat)
    requires lo <= out < dest.Length
    modifies dest
    ensures var n := ToLastSlash(old(dest[lo..out]));
            && r == (if absolute && n == 0 then lo + 1 else if !absolute && n == 1 then lo else lo + n)
            && dest[..] == if absolute && n == 0 then old(dest[..])[lo := SLASH] else old(dest[..])
  {
    r := out;
    while r > lo
      invariant lo <= r <= out
      invariant ToLastSlash(dest[lo..out]) == ToLastSlash(dest[lo..r])
    {
      r := r - 1;
      assert dest[lo..r + 1][r - lo] == dest[r];
      assert dest[lo..r + 1][..r - lo] == dest[lo..r];
      if dest[r] == SLASH {
        break;
      }
    }
    if absolute || r != lo {
      dest[r] := SLASH;
      r := r + 1;
    }
  }

  /** What holds whenever the loop is at `rest` with `out` written. */
  ghost predicate Inv(path: seq<char>, absolute: bool, atStart: bool, out: seq<char>, rest: seq<char>) {
    && absolute == Absolute(path)
    && Resume(absolute, atStart, out, rest) == Cleaned(path)
    && (atStart ==> AtBoundary(out))
    && (absolute ==> out != [] || (atStart && rest == path))
    && (Kept(path) == [] ==> out == [] && atStart && Kept(rest) == [])
  }

  /** A `..` is passed over, and so is a `.`. */
  lemma InvUp(path: seq<char>, absolute: bool, out: seq<char>, rest: seq<char>)
    requires Inv(path, absolute, true, out, rest) && rest != [] && IsUp(rest[..Cut(rest)])
    ensures absolute ==> out != []
    ensures Kept(rest) == Kept(rest[Cut(rest)..])
    ensures Inv(path, absolute, true, if !absolute && out == [SLASH] then [] else out, rest[Cut(rest)..])
  {
    assert rest[..Cut(rest)][0] == rest[0];
    assert [] + Kept(rest[Cut(rest)..]) == Kept(rest[Cut(rest)..]);
  }

  lemma InvDot(path: seq<char>, absolute: bool, out: seq<char>, rest: seq<char>)
    requires Inv(path, absolute, true, out, rest) && rest != [] && IsDot(rest[..Cut(rest)])
    ensures Kept(rest) == Kept(rest[Cut(rest)..])
    ensures Inv(path, absolute, true, out, rest[Cut(rest)..])
  {
    assert rest[..Cut(rest)][0] == rest[0];
    assert [] + Kept(rest[Cut(rest)..]) == Kept(rest[Cut(rest)..]);
  }

  /** Any other byte is copied. */
  lemma InvCopy(path: seq<char>, absolute: bool, atStart: bool, out: seq<char>, rest: seq<char>)
    requires Inv(path, absolute, atStart, out, rest) && rest != [] && (atStart ==> !Dropped(rest[..Cut(rest)]))
    ensures Inv(path, absolute, rest[0] == SLASH, out + [rest[0]], rest[1..])
  {
    CopyOne(absolute, atStart, out, rest);
    assert atStart ==> |Kept(rest)| >= |rest[..Cut(rest)]|;
  }

  /** The success exit. */
  lemma Finishes(path: seq<char>, destLen: nat, absolute: bool, atStart: bool, out: seq<char>)
    requires |out| < destLen && Inv(path, absolute, atStart, out, [])
    requires destLen == 1 ==> Kept(path) == []
    ensures Cleaned(path) == out && Succeeds(path, destLen)
  {
    assert out + [] == out;
  }

  /** The failure exit: an output that fills the buffer does not shrink again. */
  lemma Overflows(path: seq<char>, destLen: nat, absolute: bool, atStart: bool, out: seq<char>, rest: seq<char>)
    requires |out| == destLen && Inv(path, absolute, atStart, out, rest)
    ensures !Succeeds(path, destLen)
  {
    if destLen != 1 {
      if atStart {
        CleanGrows(absolute, out, rest);
      } else if |out + rest[..Cut(rest)]| != 1 {
        CleanGrows(absolute, out + rest[..Cut(rest)], rest[Cut(rest)..]);
      }
    }
  }

  /** The branch for `..` */
  method PassUp(dest: array<char>, lo: nat, out: nat, path: seq<char>, i: nat, absolute: bool)
    returns (out': nat, i': nat)
    requires lo <= out < dest.Length && i < |path| && NulFree(path) && UpAhead(path, i)
    requires Inv(path, absolute, true, dest[lo..out], path[i..])
    modifies dest
    ensures dest[..] == old(dest[..])
    ensures lo <= out' <= out && i < i' <= |path|
    ensures Inv(path, absolute, true, dest[lo..out'], path[i'..])
    ensures Kept(path[i'..]) == Kept(path[i..])
  {
    ghost var acc, rest := dest[lo..out], path[i..];
    Lookahead(path, i);
    InvUp(path, absolute, acc, rest);
    i' := i + if At(path, i + 2) == SLASH then 3 else 2;
    assert path[i'..] == rest[Cut(rest)..];
    assert ToLastSlash(acc) == |acc|;
    out' := BackUp(dest, lo, out, absolute);
    assert dest[lo..out] == acc;
    assert dest[lo..out'] == if !absolute && acc == [SLASH] then [] else acc;
  }

  /** The branch for `.` */
  method PassDot(ghost out: seq<char>, path: seq<char>, i: nat, ghost absolute: bool) returns (i': nat)
    requires i < |path| && NulFree(path) && DotAhead(path, i)
    requires Inv(path, absolute, true, out, path[i..])
    ensures i < i' <= |path|
    ensures Inv(path, absolute, true, out, path[i'..])
    ensures Kept(path[i'..]) == Kept(path[i..])
  {
    ghost var rest := path[i..];
    Lookahead(path, i);
    InvDot(path, absolute, out, rest);
    i' := i + if At(path, i + 1) == SLASH then 2 else 1;
    assert path[i'..] == rest[Cut(rest)..];
  }

  /** The branch that copies one byte. */
  method PutByte(dest: array<char>, lo: nat, out: nat, path: seq<char>, i: nat,
                 ghost absolute: bool, ghost prevSlash: bool)
    requires lo <= out < dest.Length && i < |path| && NulFree(path)
    requires prevSlash ==> !UpAhead(path, i) && !DotAhead(path, i)
    requires Inv(path, absolute, prevSlash, dest[lo..out], path[i..])
    modifies dest
    ensures Inv(path, absolute, path[i] == SLASH, dest[lo..out + 1], path[i + 1..])
    ensures forall j :: 0 <= j < dest.Length && j != out ==> dest[j] == old(dest[j])
  {
    Lookahead(path, i);
    InvCopy(path, absolute, prevSlash, dest[lo..out], path[i..]);
    dest[out] := path[i];
    assert dest[lo..out + 1] == old(dest[lo..out]) + [path[i..][0]];
    assert path[i..][1..] == path[i + 1..];
  }

  /** The success exit writes the NUL. */
  method Terminate(dest: array<char>, lo: nat, out: nat, ghost destLen: nat, ghost path: seq<char>,
                   ghost absolute: bool, ghost prevSlash: bool)
    requires lo <= out < lo + destLen <= dest.Length
    requires Inv(path, absolute, prevSlash, dest[lo..out], []) && (destLen == 1 ==> Kept(path) == [])
    modifies dest
    ensures Succeeds(path, destLen) && lo + |Cleaned(path)| == out
    ensures dest[lo..out] == Cleaned(path) && dest[out] == NUL
    ensures forall j :: 0 <= j < dest.Length && j != out ==> dest[j] == old(dest[j])
  {
    Finishes(path, destLen, absolute, prevSlash, dest[lo..out]);
    dest[out] := NUL;
  }

  /** Success in terms of the output alone, but for a buffer of one byte. */
  lemma SuccessIsRoom(path: seq<char>, destLen: nat)
    ensures Absolute(path) ==> (Succeeds(path, destLen) <==> |Kept(path)| < destLen)
    ensures destLen != 1 ==> (Succeeds(path, destLen) <==> |Cleaned(path)| < destLen)
    ensures destLen == 1 ==> (Succeeds(path, destLen) <==> Kept(path) == [])
  {
    CleanedIsKept(path);
    CleanIsShort(Absolute(path), [], path);
  }

  lemma Starts(path: seq<char>)
    ensures Inv(path, Absolute(path), true, [], path)
  {
  }

  /** The body of the loop. */
  method Advance(dest: array<char>, lo: nat, out: nat, path: seq<char>, i: nat, absolute: bool, prevSlash: bool)
    returns (out': nat, i': nat, prevSlash': bool)
    requires lo <= out < dest.Length && i < |path| && NulFree(path)
    requires Inv(path, absolute, prevSlash, dest[lo..out], path[i..])
    modifies dest
    ensures lo <= out' <= out + 1 && i < i' <= |path|
    ensures Inv(path, absolute, prevSlash', dest[lo..out'], path[i'..])
    ensures out' == out + 1 || Kept(path[i'..]) == Kept(path[i..])
    ensures forall j :: 0 <= j < dest.Length && j != out ==> dest[j] == old(dest[j])
  {
    out', prevSlash' := out, prevSlash;
    if prevSlash && UpAhead(path, i) {
      out', i' := PassUp(dest, lo, out, path, i, absolute);
      assert forall j :: 0 <= j < dest.Length ==> dest[j] == dest[..][j];
    } else if prevSlash && DotAhead(path, i) {
      i' := PassDot(dest[lo..out], path, i, absolute);
    } else {
      PutByte(dest, lo, out, path, i, absolute, prevSlash);
      out', i', prevSlash' := out + 1, i + 1, path[i] == SLASH;
    }
  }

  /** `util_fixpath` into the `destLen` bytes of `dest` from `lo` on; true stands for 0. */
  method Fix(dest: array<char>, lo: nat, destLen: nat, path: seq<char>) returns (ok: bool)
    requires lo + destLen <= dest.Length && NulFree(path)
    modifies dest
    ensures ok <==> Succeeds(path, destLen)
    ensures Absolute(path) ==> (ok <==> |Kept(path)| < destLen)
    ensures destLen != 1 ==> (ok <==> |Cleaned(path)| < destLen)
    ensures destLen == 1 ==> (ok <==> Kept(path) == [])
    ensures ok ==> dest[lo..lo + |Cleaned(path)|] == Cleaned(path) && dest[lo + |Cleaned(path)|] == NUL
    ensures forall j :: 0 <= j < lo || lo + destLen <= j < dest.Length ==> dest[j] == old(dest[j])
  {
    SuccessIsRoom(path, destLen);
    var out, i := lo, 0;
    var absolute := At(path, 0) == SLASH;
    var prevSlash := true;
    Starts(path);
    assert path[i..] == path && dest[lo..out] == [];
    while out < lo + destLen
      invariant lo <= out <= lo + destLen && i <= |path|
      invariant forall j :: 0 <= j < lo || lo + destLen <= j < dest.Length ==> dest[j] == old(dest[j])
      invariant Inv(path, absolute, prevSlash, dest[lo..out], path[i..])
      invariant destLen == 1 && out == lo ==> Kept(path) == Kept(path[i..])
      decreases |path| - i
    {
      if At(path, i) == NUL {
        assert path[i..] == [];
        Terminate(dest, lo, out, destLen, path, absolute, prevSlash);
        return true;
      }
      out, i, prevSlash := Advance(dest, lo, out, path, i, absolute, prevSlash);
    }
    Overflows(path, destLen, absolute, prevSlash, dest[lo..out], path[i..]);
    return false;
  }

  // ---------- The path of a static file

  const PATH_MAX: nat := 4096

  /** The URI without its leading slashes. */
  function Stripped(uri: seq<char>): (r: seq<char>)
    ensures r == [] || r[0] != SLASH
  {
    if uri != [] && uri[0] == SLASH then Stripped(uri[1..]) else uri
  }

  /** The separator after the base. */
  function Separator(base: seq<char>): seq<char> {
    if base != [] && base[|base| - 1] != SLASH then [SLASH] else []
  }

  /** What `open_path` opens. */
  function FilePath(base: seq<char>, uri: seq<char>): seq<char> {
    base + Separator(base) + Cleaned(Stripped(uri))
  }

  predicate PathFits(base: seq<char>, uri: seq<char>) {
    && |base| <= PATH_MAX - 2
    && Succeeds(Stripped(uri), PATH_MAX - |base + Separator(base)|)
  }

  /** The base and the separator after it. */
  method CopyBase(path: array<char>, base: seq<char>) returns (baseLen: nat)
    requires path.Length == PATH_MAX && |base| <= PATH_MAX - 2
    modifies path
    ensures baseLen == |base + Separator(base)| < PATH_MAX
    ensures path[..baseLen] == base + Separator(base)
  {
    baseLen := |base|;
    forall i | 0 <= i < baseLen {
      path[i] := base[i];
    }
    if baseLen != 0 && path[baseLen - 1] != SLASH {
      path[baseLen] := SLASH;
      baseLen := baseLen + 1;
      path[baseLen] := NUL;
    }
  }

  /** The path assembly of `open_path`; true stands for the path being complete. */
  method BuildPath(path: array<char>, base: seq<char>, uri: seq<char>) returns (ok: bool)
    requires path.Length == PATH_MAX && NulFree(base) && NulFree(uri)
    modifies path
    ensures ok <==> PathFits(base, uri)
    ensures ok ==> FilePath(base, uri) + [NUL] <= path[..]
  {
    var start := 0;
    while start < |uri| && uri[start] == SLASH
      invariant start <= |uri|
      invariant Stripped(uri) == Stripped(uri[start..])
    {
      assert uri[start..][1..] == uri[start + 1..];
      start := start + 1;
    }
    var rest := uri[start..];
    assert rest == Stripped(uri);
    if |base| > PATH_MAX - 2 {
      return false;
    }
    var baseLen := CopyBase(path, base);
    ghost var prefix := path[..baseLen];
    ok := Fix(path, baseLen, PATH_MAX - baseLen, rest);
    if ok {
      assert path[..baseLen] == prefix;
      assert path[..baseLen + |Cleaned(rest)| + 1] == prefix + Cleaned(rest) + [NUL];
    }
  }

  /** Main result: where the suffix starts.  Behind a base it stands after exactly one slash if the base
      ends in none, and right after the base if it ends in one. */
  lemma PathOfFile(base: seq<char>, uri: seq<char>)
    ensures var file, clean := FilePath(base, uri), Cleaned(Stripped(uri));
            && (base == [] ==> file == clean)
            && (base != [] && base[|base| - 1] == '/' ==> file == base + clean)
            && (base != [] && base[|base| - 1] != '/' ==> file == base + ['/'] + clean)
  {
    assert base + [] == base;
    assert [] + Cleaned(Stripped(uri)) == Cleaned(Stripped(uri));
  }

  lemma {:induction false} TokensConcat(a: seq<char>, b: seq<char>)
    requires AtBoundary(a)
    ensures Tokens(a + b) == Tokens(a) + Tokens(b)
    decreases |a|
  {
    if a == [] {
      assert a + b == b;
    } else {
      var t, rest := a[..Cut(a)], a[Cut(a)..];
      assert a == t + rest;
      assert AtBoundary(rest) by {
        if rest != [] { assert rest[|rest| - 1] == a[|a| - 1]; }
      }
      assert t[|t| - 1] == SLASH by {
        if rest == [] { assert t == a; }
      }
      CutOfToken(t, rest + b);
      Assoc(t, rest, b);
      assert (t + (rest + b))[..|t|] == t && (t + (rest + b))[|t|..] == rest + b;
      TokensConcat(rest, b);
      Assoc([t], Tokens(rest), Tokens(b));
    }
  }

  /** The components of the file are those of the base, closed by a slash, and those of the URI. */
  lemma TokensOfFile(base: seq<char>, uri: seq<char>)
    ensures var closed := if base == [] || base[|base| - 1] == '/' then base else base + ['/'];
            Tokens(FilePath(base, uri)) == Tokens(closed) + Tokens(Cleaned(Stripped(uri)))
  {
    var closed := if base == [] || base[|base| - 1] == '/' then base else base + ['/'];
    PathOfFile(base, uri);
    assert [] + Cleaned(Stripped(uri)) == Cleaned(Stripped(uri));
    TokensConcat(closed, Cleaned(Stripped(uri)));
  }

  /** Main result: the path of a file is complete exactly if the base leaves two bytes and the whole with
      its NUL takes no more than 4096; where the base and its slash leave one byte only, nothing of the
      URI may be kept. */
  lemma FitsExactly(base: seq<char>, uri: seq<char>)
    ensures PathFits(base, uri) <==>
            && |base| <= 4094 && |FilePath(base, uri)| + 1 <= 4096
            && (|base| == 4094 && base[4093] != '/' ==> Kept(Stripped(uri)) == [])
  {
    PathOfFile(base, uri);
    if |base| <= PATH_MAX - 2 {
      SuccessIsRoom(Stripped(uri), PATH_MAX - |base + Separator(base)|);
      CleanIsShort(Absolute(Stripped(uri)), [], Stripped(uri));
    }
  }

  /** Main result: the C string that is opened is the base, a separator if one is needed, and a suffix
      without dot components. */
  lemma OpenedPath(base: seq<char>, uri: seq<char>, path: seq<char>)
    requires NulFree(base) && NulFree(uri) && FilePath(base, uri) + [NUL] <= path
    ensures DotFree(FilePath(base, uri)[|base + Separator(base)|..])
    ensures |FilePath(base, uri)| <= |base| + 1 + |uri|
    ensures CStr(path) == FilePath(base, uri)
  {
    var clean := Cleaned(Stripped(uri));
    assert FilePath(base, uri)[|base + Separator(base)|..] == clean;
    CleanedIsClean(Stripped(uri), PATH_MAX);
    StrippedIsShort(uri);
    NulFreeOutput(Absolute(Stripped(uri)), [], Stripped(uri));
    Opens(path, base + Separator(base), clean);
  }

  lemma Opens(path: seq<char>, front: seq<char>, clean: seq<char>)
    requires NulFree(front) && NulFree(clean) && front + clean + [NUL] <= path
    ensures CStr(path) == front + clean
  {
    var file := front + clean;
    assert path == file + path[|file|..];
    assert path[|file|..][0] == (file + [NUL])[|file|];
    CStrOfNulFree(file, path[|file|..]);
  }

  /** A path opened under a base is absolute if the base is; under no base it is exactly if the URI
      becomes so. */
  lemma OpensAbsolute(base: seq<char>, uri: seq<char>)
    ensures Absolute(FilePath(base, uri)) <==> if base == [] then BecomesAbsolute(Stripped(uri)) else Absolute(base)
  {
    if base == [] {
      RelativeIsTrimmed(Stripped(uri));
      assert FilePath(base, uri) == Cleaned(Stripped(uri));
    } else {
      assert FilePath(base, uri)[0] == base[0];
    }
  }

  /** Main result: every URI stays relative to the base exactly if there is a base. */
  lemma BaseDecides(base: seq<char>)
    ensures (forall uri: seq<char> :: Absolute(FilePath(base, uri)) ==> Absolute(base)) <==> base != []
  {
    if base == [] {
      var uri: seq<char> := "/.//x";
      SlashIsUncovered();
      assert uri[1..] == ".//x" && Stripped(uri) == Stripped(uri[1..]) == ".//x";
      assert FilePath(base, uri) == Cleaned(Stripped(uri)) == "/x";
      assert Absolute(FilePath(base, uri));
    } else {
      forall uri: seq<char> | Absolute(FilePath(base, uri)) ensures Absolute(base) {
        OpensAbsolute(base, uri);
      }
    }
  }

  /** What is stripped is slashes, and all of them at the front. */
  lemma {:induction false} StrippedIsRest(uri: seq<char>) returns (slashes: seq<char>)
    ensures uri == slashes + Stripped(uri) && forall c :: c in slashes ==> c == '/'
    ensures Stripped(uri) == [] || Stripped(uri)[0] != '/'
  {
    if uri != [] && uri[0] == SLASH {
      slashes := StrippedIsRest(uri[1..]);
      Assoc([SLASH], slashes, Stripped(uri[1..]));
      assert uri == [SLASH] + uri[1..];
      slashes := [SLASH] + slashes;
    } else {
      slashes := [];
      assert [] + uri == uri;
    }
  }

  lemma {:induction false} StrippedIsShort(uri: seq<char>)
    ensures |Stripped(uri)| <= |uri|
    ensures NulFree(uri) ==> NulFree(Stripped(uri))
  {
    if uri != [] && uri[0] == SLASH {
      StrippedIsShort(uri[1..]);
    }
  }

  lemma {:induction false} NulFreeOutput(absolute: bool, out: seq<char>, path: seq<char>)
    requires NulFree(out) && NulFree(path)
    ensures NulFree(Clean(absolute, out, path))
    decreases |path|
  {
    if path != [] {
      var t, rest := path[..Cut(path)], path[Cut(path)..];
      if IsUp(t) {
        NulFreeOutput(absolute, if !absolute && out == [SLASH] then [] else out, rest);
      } else if IsDot(t) {
        NulFreeOutput(absolute, out, rest);
      } else {
        NulFreeOutput(absolute, out + t, rest);
      }
    }
  }
}
