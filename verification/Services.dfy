/** The services of a domain in victory.c: registration and longest-prefix lookup. */
module Services {
  import opened Bytes

  /** A registered service; the loaded module is known by its number. */
  datatype Service = Service(prefix: seq<char>, mod: nat)

  // ---------- One prefix

  /** The prefix covers whole components of the path. */
  predicate Matches(prefix: seq<char>, path: seq<char>) {
    && prefix <= path
    && (|path| == |prefix| || path[|prefix|] == '/' || (prefix != [] && prefix[|prefix| - 1] == '/'))
  }

  /** `match_subpath` */
  method MatchSubpath(prefix: seq<char>, path: seq<char>) returns (matches: bool, sub: seq<char>)
    requires NulFree(prefix) && NulFree(path)
    ensures matches <==> Matches(prefix, path)
    ensures matches ==> prefix + sub == path
  {
    var i := 0;
    var prev := NUL;
    while i < |prefix| && i < |path| && prefix[i] == path[i]
      invariant i <= |prefix| && i <= |path|
      invariant prefix[..i] == path[..i]
      invariant prev == if i == 0 then NUL else path[i - 1]
    {
      prev := path[i];
      i := i + 1;
    }
    sub := path[i..];
    matches := i == |prefix| && (i == |path| || path[i] == '/' || prev == '/');
    if i == |prefix| {
      assert prefix == path[..i];
    }
  }

  /** A path goes on behind `s` and a slash exactly if the components of `s` are a proper beginning of its. */
  lemma GoesOn(s: seq<char>, path: seq<char>)
    ensures (exists rest: seq<char> :: path == s + (['/'] + rest)) <==> Split(s, '/') < Split(path, '/')
  {
    if rest: seq<char> :| path == s + (['/'] + rest) {
      SplitAtSep(s, rest, '/');
    }
    var cs, all := Split(s, '/'), Split(path, '/');
    if cs < all {
      var tail := all[|cs|..];
      assert all == cs + tail;
      JoinedAppend(cs, tail, '/');
      JoinedSplit(s, '/');
      JoinedSplit(path, '/');
      assert path == s + (['/'] + Joined(tail, '/'));
    }
  }

  lemma PrefixAtSlash(prefix: seq<char>, path: seq<char>)
    ensures (prefix <= path && |prefix| < |path| && path[|prefix|] == '/') <==>
            exists rest: seq<char> :: path == prefix + (['/'] + rest)
  {
    if prefix <= path && |prefix| < |path| && path[|prefix|] == '/' {
      assert path == prefix + (['/'] + path[|prefix| + 1..]);
    }
  }

  /** Main result: a prefix matches exactly if its components are the first ones of the path; one that
      ends in a slash only if the path goes on behind them. */
  lemma MatchesByComponent(prefix: seq<char>, path: seq<char>)
    ensures prefix == [] || prefix[|prefix| - 1] != '/' ==>
              (Matches(prefix, path) <==> Split(prefix, '/') <= Split(path, '/'))
    ensures prefix != [] && prefix[|prefix| - 1] == '/' ==>
              (Matches(prefix, path) <==> Split(prefix[..|prefix| - 1], '/') < Split(path, '/'))
  {
    if prefix != [] && prefix[|prefix| - 1] == '/' {
      var s := prefix[..|prefix| - 1];
      GoesOn(s, path);
      PrefixAtSlash(s, path);
      assert prefix == s + ['/'];
    } else {
      GoesOn(prefix, path);
      PrefixAtSlash(prefix, path);
      JoinedSplit(prefix, '/');
      JoinedSplit(path, '/');
      assert Matches(prefix, path) <==>
             prefix == path || (prefix <= path && |prefix| < |path| && path[|prefix|] == '/');
      assert Split(prefix, '/') <= Split(path, '/') <==>
             Split(prefix, '/') == Split(path, '/') || Split(prefix, '/') < Split(path, '/');
    }
  }

  // ---------- A list of services

  ghost predicate Distinct(services: seq<Service>) {
    forall i, j :: 0 <= i < j < |services| ==> services[i].prefix != services[j].prefix
  }

  /** `best` is a service with the longest matching prefix. */
  ghost predicate IsBest(services: seq<Service>, path: seq<char>, best: Service) {
    && best in services && Matches(best.prefix, path)
    && forall s :: s in services && Matches(s.prefix, path) ==> |s.prefix| <= |best.prefix|
  }

  ghost predicate HasMatch(services: seq<Service>, path: seq<char>) {
    exists s :: s in services && Matches(s.prefix, path)
  }

  /** `se_add`; None stands for an unknown module.  New services go to the head of the list. */
  datatype Request = Request(prefix: seq<char>, mod: Option<nat>)

  ghost predicate Refused(services: seq<Service>, r: Request) {
    r.mod.None? || exists i :: 0 <= i < |services| && services[i].prefix == r.prefix
  }

  ghost function Add(services: seq<Service>, r: Request): seq<Service> {
    if Refused(services, r) then services else [Service(r.prefix, r.mod.value)] + services
  }

  class Domain {
    var services: seq<Service>

    ghost predicate Valid()
      reads this
    {
      Distinct(services) && forall s :: s in services ==> NulFree(s.prefix)
    }

    constructor ()
      ensures Valid() && services == []
    {
      services := [];
    }

    /** `se_find` */
    method Find(path: seq<char>) returns (best: Option<Service>, sub: seq<char>)
      requires Valid() && NulFree(path)
      ensures best.Some? <==> HasMatch(services, path)
      ensures best.Some? ==> IsBest(services, path, best.value) && best.value.prefix + sub == path
      ensures best.None? ==> forall s :: s in services ==> !Matches(s.prefix, path)
      ensures best.Some? ==>
                && best.value in services && Matches(best.value.prefix, path)
                && forall s :: s in services && Matches(s.prefix, path) ==> |s.prefix| <= |best.value.prefix|
    {
      best, sub := None, [];
      var bestLen := 1024;
      var i := 0;
      while i < |services|
        invariant i <= |services|
        invariant best.None? ==> forall j :: 0 <= j < i ==> !Matches(services[j].prefix, path)
        invariant best.Some? ==>
          && best.value in services && Matches(best.value.prefix, path)
          && best.value.prefix + sub == path && bestLen == |sub|
          && forall j :: 0 <= j < i && Matches(services[j].prefix, path) ==> |services[j].prefix| <= |best.value.prefix|
      {
        var cu := services[i];
        var matches, s := MatchSubpath(cu.prefix, path);
        if matches {
          var cuLen := |s|;
          if best.None? || cuLen < bestLen {
            best, bestLen, sub := Some(cu), cuLen, s;
          }
        }
        i := i + 1;
      }
    }

    /** `se_find_exact` */
    method FindExact(path: seq<char>) returns (r: Option<Service>)
      ensures r.Some? ==> r.value in services && r.value.prefix == path
      ensures r.None? ==> forall j :: 0 <= j < |services| ==> services[j].prefix != path
    {
      var i := 0;
      while i < |services|
        invariant i <= |services|
        invariant forall j :: 0 <= j < i ==> services[j].prefix != path
      {
        if services[i].prefix == path {
          return Some(services[i]);
        }
        i := i + 1;
      }
      return None;
    }

    /** `se_add`; true stands for 0. */
    method Register(prefix: seq<char>, mod: Option<nat>) returns (ok: bool)
      requires Valid() && NulFree(prefix)
      modifies this
      ensures Valid()
      ensures ok <==> !Refused(old(services), Request(prefix, mod))
      ensures ok <==> mod.Some? && forall s :: s in old(services) ==> s.prefix != prefix
      ensures services == if ok then [Service(prefix, mod.value)] + old(services) else old(services)
      ensures services == Add(old(services), Request(prefix, mod))
    {
      if mod.None? {
        return false;
      }
      var se := FindExact(prefix);
      if se.Some? {
        return false;
      }
      services := [Service(prefix, mod.value)] + services;
      return true;
    }
  }

  // ---------- Any sequence of registrations

  ghost function Registered(rs: seq<Request>): seq<Service> {
    if rs == [] then [] else Add(Registered(rs[..|rs| - 1]), rs[|rs| - 1])
  }

  /** The index of the first request for `prefix` with a known module, or -1. */
  function First(rs: seq<Request>, prefix: seq<char>): (i: int)
    ensures -1 <= i < |rs|
    ensures i >= 0 ==> rs[i].prefix == prefix && rs[i].mod.Some?
    ensures forall j :: 0 <= j < (if i >= 0 then i else |rs|) ==> !(rs[j].prefix == prefix && rs[j].mod.Some?)
  {
    if rs == [] then -1
    else
      var i := First(rs[..|rs| - 1], prefix);
      if i >= 0 then i
      else if rs[|rs| - 1].prefix == prefix && rs[|rs| - 1].mod.Some? then |rs| - 1
      else -1
  }

  /** Main result: prefixes stay distinct, and what is registered for a prefix is what the first
      request for it with a known module asked for. */
  lemma {:induction false} RegisteredIsFirst(rs: seq<Request>)
    ensures Distinct(Registered(rs))
    ensures forall s :: s in Registered(rs) <==> Asked(rs, s)
  {
    if rs != [] {
      var init, last := rs[..|rs| - 1], rs[|rs| - 1];
      assert rs == init + [last];
      RegisteredIsFirst(init);
      AddKeeps(init, last);
    }
  }

  /** `s` is what the requests have registered for its prefix. */
  predicate Asked(rs: seq<Request>, s: Service) {
    First(rs, s.prefix) >= 0 && s.mod == rs[First(rs, s.prefix)].mod.value
  }

  /** One request more changes what is asked for its prefix only, and only if that was nothing. */
  lemma AskedSnoc(init: seq<Request>, last: Request, s: Service)
    ensures Asked(init + [last], s) <==>
            if First(init, s.prefix) >= 0 then Asked(init, s)
            else last.prefix == s.prefix && last.mod == Some(s.mod)
  {
    assert (init + [last])[..|init|] == init;
  }

  lemma RefusedIfAsked(init: seq<Request>, last: Request)
    requires forall s :: s in Registered(init) <==> Asked(init, s)
    ensures Refused(Registered(init), last) <==> last.mod.None? || First(init, last.prefix) >= 0
  {
    if First(init, last.prefix) >= 0 {
      assert Asked(init, Service(last.prefix, init[First(init, last.prefix)].mod.value));
    } else {
      forall i | 0 <= i < |Registered(init)| ensures Registered(init)[i].prefix != last.prefix {
        assert Asked(init, Registered(init)[i]);
      }
    }
  }

  lemma AddKeeps(init: seq<Request>, last: Request)
    requires Distinct(Registered(init))
    requires forall s :: s in Registered(init) <==> Asked(init, s)
    ensures Distinct(Add(Registered(init), last))
    ensures forall s :: s in Add(Registered(init), last) <==> Asked(init + [last], s)
  {
    RefusedIfAsked(init, last);
    forall s ensures s in Add(Registered(init), last) <==> Asked(init + [last], s) {
      AskedSnoc(init, last, s);
    }
  }

  ghost function Prefixes(services: seq<Service>): set<seq<char>> {
    set s | s in services :: s.prefix
  }

  /** A service of one list has one with the same prefix in the other. */
  lemma Counterpart(a: seq<Service>, b: seq<Service>, s: Service) returns (t: Service)
    requires Prefixes(a) == Prefixes(b) && s in a
    ensures t in b && t.prefix == s.prefix
  {
    assert s.prefix in Prefixes(b);
    t :| t in b && t.prefix == s.prefix;
  }

  /** The longest matching prefix is unique: lists with the same prefixes have the same best one, in
      whatever order. */
  lemma BestIsUnique(a: seq<Service>, b: seq<Service>, path: seq<char>, x: Service, y: Service)
    requires IsBest(a, path, x) && IsBest(b, path, y) && Prefixes(a) == Prefixes(b)
    ensures x.prefix == y.prefix
    ensures Distinct(a) && y in a ==> x == y
  {
    var x' := Counterpart(a, b, x);
    var y' := Counterpart(b, a, y);
    assert |x.prefix| == |y.prefix|;
    assert x.prefix == path[..|x.prefix|] && y.prefix == path[..|y.prefix|];
  }

  /** Main result: the best service of a list is one whose prefix matches and is the longest to do so;
      every other matching prefix is a beginning of it. */
  lemma BestIsLongest(services: seq<Service>, path: seq<char>, best: Service)
    ensures IsBest(services, path, best) <==>
            && best in services && Matches(best.prefix, path)
            && forall s :: s in services && Matches(s.prefix, path) ==> s.prefix <= best.prefix
  {
    forall s | s in services && Matches(s.prefix, path) && Matches(best.prefix, path) && |s.prefix| <= |best.prefix|
      ensures s.prefix <= best.prefix
    {
      assert s.prefix == path[..|s.prefix|] && best.prefix == path[..|best.prefix|];
    }
  }

  lemma PrefixesAsked(rs: seq<Request>)
    ensures forall p :: p in Prefixes(Registered(rs)) <==> First(rs, p) >= 0
  {
    RegisteredIsFirst(rs);
    forall p | First(rs, p) >= 0 ensures p in Prefixes(Registered(rs)) {
      var s := Service(p, rs[First(rs, p)].mod.value);
      assert s in Registered(rs);
    }
  }

  /** Main result: the prefix chosen for a path depends only on which prefixes were asked for with a
      known module, not on the order or number of the requests. */
  lemma OrderDoesNotMatter(rs: seq<Request>, rs': seq<Request>, path: seq<char>, x: Service, y: Service)
    requires forall p :: First(rs, p) >= 0 <==> First(rs', p) >= 0
    requires IsBest(Registered(rs), path, x)
    ensures HasMatch(Registered(rs'), path)
    ensures IsBest(Registered(rs'), path, y) ==> x.prefix == y.prefix
  {
    PrefixesAsked(rs);
    PrefixesAsked(rs');
    assert Prefixes(Registered(rs)) == Prefixes(Registered(rs'));
    var t := Counterpart(Registered(rs), Registered(rs'), x);
    assert Matches(t.prefix, path);
    if IsBest(Registered(rs'), path, y) {
      BestIsUnique(Registered(rs), Registered(rs'), path, x, y);
    }
  }
}
