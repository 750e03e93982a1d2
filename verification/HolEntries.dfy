/** The help option list: entries, clusters, and walks over one entry. */
module HolEntries {
  import opened ArgpOptions
  import opened FirstSeen
  import opened Wrappers

  /** The NULL cluster pointer. */
  const NO_CLUSTER := -1

  /** struct hol_cluster; `parent` points into the forest or is NO_CLUSTER. */
  datatype Cluster = Cluster(group: int, index: int, parent: int, depth: int)

  /** All clusters of a list, each one allocated after its parent. */
  type Forest = seq<Cluster>

  predicate ValidForest(f: Forest) {
    && (forall c :: 0 <= c < |f| ==> -1 <= f[c].parent < c && 0 <= f[c].depth)
    && (forall c :: 0 <= c < |f| ==> DepthFits(f, c))
  }

  predicate DepthFits(f: Forest, c: int)
    requires 0 <= c < |f| && -1 <= f[c].parent < |f|
  {
    f[c].depth == if f[c].parent == NO_CLUSTER then 0 else f[f[c].parent].depth + 1
  }

  predicate InForest(f: Forest, c: int) {
    -1 <= c < |f|
  }

  /** struct hol_entry.  `opts` is the run of `num` options from `opt` on: an
      option and its aliases.  `so` is the offset of short_options in the
      list's string.  `node` is the preorder position of the argp pointer. */
  datatype Entry = Entry(opts: seq<Opt>, so: nat, group: int, cluster: int, node: nat)

  /** The character at an offset of a NUL-terminated string. */
  function CharAt(s: seq<Byte>, i: nat): Byte {
    if i < |s| then s[i] else 0
  }

  /** The options matched when the string is read from `so` on: the offset
      moves by one at each match. */
  function Kept(opts: seq<Opt>, s: seq<Byte>, so: nat): seq<Opt> {
    if opts == [] then []
    else if IsShort(opts[0]) && CharAt(s, so) == opts[0].key then [opts[0]] + Kept(opts[1..], s, so + 1)
    else Kept(opts[1..], s, so)
  }

  function Visible(opts: seq<Opt>): seq<Opt> {
    if opts == [] then []
    else if !opts[0].hidden then [opts[0]] + Visible(opts[1..])
    else Visible(opts[1..])
  }

  lemma {:induction false} VisibleAppend(a: seq<Opt>, b: seq<Opt>)
    ensures Visible(a + b) == Visible(a) + Visible(b)
  {
    if a == [] {
      assert a + b == b;
    } else {
      VisibleAppend(a[1..], b);
      assert (a + b)[0] == a[0] && (a + b)[1..] == a[1..] + b;
      Assoc(if a[0].hidden then [] else [a[0]], Visible(a[1..]), Visible(b));
    }
  }

  lemma {:induction false} VisibleIsPart(opts: seq<Opt>)
    ensures forall o :: o in Visible(opts) <==> o in opts && !o.hidden
  {
    if opts != [] {
      VisibleIsPart(opts[1..]);
      assert opts == [opts[0]] + opts[1..];
    }
  }

  lemma {:induction false} KeptIsShort(opts: seq<Opt>, s: seq<Byte>, so: nat)
    ensures forall o :: o in Kept(opts, s, so) ==> IsShort(o) && o in opts
  {
    if opts != [] {
      KeptIsShort(opts[1..], s, so + 1);
      KeptIsShort(opts[1..], s, so);
      assert opts == [opts[0]] + opts[1..];
    }
  }

  /** What a callback is called with: an option and the option it stands for,
      itself or the one it is an alias of. */
  datatype Match = Match(opt: Opt, main: Opt)

  /** The visible options matched when the string is read from `so` on, `main`
      being the latest option that is no alias. */
  function Matches(opts: seq<Opt>, s: seq<Byte>, so: nat, main: Opt): seq<Match> {
    if opts == [] then []
    else if !(IsShort(opts[0]) && CharAt(s, so) == opts[0].key) then Matches(opts[1..], s, so, main)
    else
      var latest := if opts[0].alias then main else opts[0];
      (if opts[0].hidden then [] else [Match(opts[0], latest)]) + Matches(opts[1..], s, so + 1, latest)
  }

  /** The matches of an entry. */
  function Shown(e: Entry, s: seq<Byte>): seq<Match> {
    if e.opts == [] then [] else Matches(e.opts, s, e.so, e.opts[0])
  }

  function Options(ms: seq<Match>): seq<Opt> {
    seq(|ms|, i requires 0 <= i < |ms| => ms[i].opt)
  }

  lemma {:induction false} MatchesAreKept(opts: seq<Opt>, s: seq<Byte>, so: nat, main: Opt)
    ensures Options(Matches(opts, s, so, main)) == Visible(Kept(opts, s, so))
  {
    if opts != [] {
      var o := opts[0];
      if IsShort(o) && CharAt(s, so) == o.key {
        var later := Kept(opts[1..], s, so + 1);
        MatchesAreKept(opts[1..], s, so + 1, if o.alias then main else o);
        assert ([o] + later)[1..] == later;
      } else {
        MatchesAreKept(opts[1..], s, so, main);
      }
    }
  }

  /** An option and its aliases: every match stands for the option. */
  lemma {:induction false} RealIsFirst(opts: seq<Opt>, s: seq<Byte>, so: nat, main: Opt)
    requires forall o :: o in opts && !o.alias ==> o == main
    ensures forall m :: m in Matches(opts, s, so, main) ==> m.main == main
  {
    if opts != [] {
      assert opts == [opts[0]] + opts[1..];
      RealIsFirst(opts[1..], s, so + 1, main);
      RealIsFirst(opts[1..], s, so, main);
    }
  }

  /** The matches a callback is called on: all up to its first non-zero answer. */
  function Until(ms: seq<Match>, func: Match -> int): seq<Match> {
    if ms == [] then []
    else if func(ms[0]) != 0 then [ms[0]]
    else [ms[0]] + Until(ms[1..], func)
  }

  /** A callback that always answers 0 sees every match. */
  lemma {:induction false} UntilNever(ms: seq<Match>, func: Match -> int)
    requires forall m :: m in ms ==> func(m) == 0
    ensures Until(ms, func) == ms
  {
    if ms != [] {
      assert ms == [ms[0]] + ms[1..];
      UntilNever(ms[1..], func);
    }
  }

  /** What is left to see from option `i` on. */
  ghost function Ahead(e: Entry, i: nat, s: seq<Byte>, so: nat, main: Opt, func: Match -> int): seq<Match>
    requires i <= |e.opts|
  {
    Until(Matches(e.opts[i..], s, so, main), func)
  }

  lemma AheadStep(e: Entry, i: nat, s: seq<Byte>, so: nat, main: Opt, func: Match -> int)
    requires i < |e.opts|
    ensures var o := e.opts[i];
            var latest := if o.alias then main else o;
            Ahead(e, i, s, so, main, func) ==
              if !(IsShort(o) && CharAt(s, so) == o.key) then Ahead(e, i + 1, s, so, main, func)
              else if o.hidden then Ahead(e, i + 1, s, so + 1, latest, func)
              else [Match(o, latest)] + if func(Match(o, latest)) != 0 then []
                                        else Ahead(e, i + 1, s, so + 1, latest, func)
  {
    var o := e.opts[i];
    var latest := if o.alias then main else o;
    var later := Matches(e.opts[i + 1..], s, so + 1, latest);
    assert e.opts[i..][0] == o && e.opts[i..][1..] == e.opts[i + 1..] && [] + later == later;
    hide IsShort, CharAt, Until;
    UntilStep(Match(o, latest), later, func);
  }

  lemma AheadAll(e: Entry, s: seq<Byte>, so: nat, main: Opt, func: Match -> int)
    ensures Ahead(e, 0, s, so, main, func) == Until(Matches(e.opts, s, so, main), func)
    ensures Ahead(e, |e.opts|, s, so, main, func) == []
  {
    assert e.opts[0..] == e.opts;
  }

  /** The callback's last answer. */
  function LastAnswer(ms: seq<Match>, func: Match -> int): int {
    if ms == [] then 0 else func(ms[|ms| - 1])
  }

  lemma NothingSeen(e: Entry, s: seq<Byte>, func: Match -> int)
    ensures LastAnswer([], func) == 0
    ensures Until(Shown(e, s), func) == if e.opts == [] then [] else Until(Matches(e.opts, s, e.so, e.opts[0]), func)
  {
  }

  lemma OneMoreSeen(visited: seq<Match>, m: Match, later: seq<Match>, func: Match -> int)
    ensures visited + ([m] + later) == visited + [m] + later
    ensures LastAnswer(visited + [m], func) == func(m)
  {
  }

  /** hol_entry_short_iterate.  `visited` lists what `func` was called on, in
      order; `val` is its last answer. */
  method ShortIterate(e: Entry, s: seq<Byte>, func: Match -> int) returns (val: int, visited: seq<Match>)
    ensures visited == Until(Shown(e, s), func)
    ensures val == LastAnswer(visited, func)
  {
    hide Until, Matches, IsShort, CharAt, Ahead, Shown, LastAnswer;
    val, visited := 0, [];
    ghost var all := Until(Shown(e, s), func);
    NothingSeen(e, s, func);
    if e.opts == [] {
      return;
    }
    var main, so := e.opts[0], e.so;
    AheadAll(e, s, so, main, func);
    var i := 0;
    while i < |e.opts| && val == 0
      invariant 0 <= i <= |e.opts|
      invariant all == visited + if val == 0 then Ahead(e, i, s, so, main, func) else []
      invariant val == LastAnswer(visited, func)
    {
      var opt := e.opts[i];
      AheadStep(e, i, s, so, main, func);
      if IsShort(opt) && CharAt(s, so) == opt.key {
        if !opt.alias {
          main := opt;
        }
        so := so + 1;
        if !opt.hidden {
          val := func(Match(opt, main));
          OneMoreSeen(visited, Match(opt, main), if val != 0 then [] else Ahead(e, i + 1, s, so, main, func), func);
          visited := visited + [Match(opt, main)];
        }
      }
      i := i + 1;
    }
    AheadAll(e, s, so, main, func);
  }

  lemma UntilStep(m: Match, later: seq<Match>, func: Match -> int)
    ensures Until([m] + later, func) == [m] + if func(m) != 0 then [] else Until(later, func)
  {
    assert ([m] + later)[1..] == later;
  }

  /** The key hol_entry_first_short finds, or 0. */
  function FirstShort(e: Entry, s: seq<Byte>): Byte {
    var shown := Visible(Kept(e.opts, s, e.so));
    if shown == [] || !IsShort(shown[0]) then 0 else shown[0].key
  }

  /** It is the key of the first option shown, and 0 when none is. */
  lemma FirstShortIs(e: Entry, s: seq<Byte>)
    ensures var shown := Visible(Kept(e.opts, s, e.so));
            && (FirstShort(e, s) == 0 <==> shown == [])
            && (shown != [] ==> FirstShort(e, s) == shown[0].key)
  {
    var shown := Visible(Kept(e.opts, s, e.so));
    KeptIsShort(e.opts, s, e.so);
    VisibleIsPart(Kept(e.opts, s, e.so));
    if shown != [] {
      assert shown[0] in shown;
    }
  }

  /** hol_entry_first_short, by the until_short callback. */
  method HolEntryFirstShort(e: Entry, s: seq<Byte>) returns (key: int)
    ensures key == FirstShort(e, s)
  {
    var visited;
    key, visited := ShortIterate(e, s, (m: Match) => if IsShort(m.opt) then m.opt.key else 0);
    if e.opts != [] {
      MatchesAreKept(e.opts, s, e.so, e.opts[0]);
    }
    ghost var kept := Kept(e.opts, s, e.so);
    KeptIsShort(e.opts, s, e.so);
    VisibleIsPart(kept);
    if Visible(kept) != [] {
      assert Visible(kept)[0] in Visible(kept);
    }
  }

  /** The name hol_entry_first_long finds, or None. */
  function FirstLong(opts: seq<Opt>): Option<CStr> {
    if opts == [] then None
    else if opts[0].name.Some? && !opts[0].hidden then opts[0].name
    else FirstLong(opts[1..])
  }

  /** It is the name of the first option that has one and is not hidden. */
  lemma {:induction false} FirstLongIs(opts: seq<Opt>, i: nat)
    requires i <= |opts| && (i < |opts| ==> opts[i].name.Some? && !opts[i].hidden)
    requires forall j :: 0 <= j < i ==> opts[j].name.None? || opts[j].hidden
    ensures FirstLong(opts) == if i < |opts| then opts[i].name else None
    decreases i
  {
    if i > 0 {
      FirstLongIs(opts[1..], i - 1);
    }
  }

  /** hol_entry_first_long. */
  method HolEntryFirstLong(e: Entry) returns (name: Option<CStr>)
    ensures name == FirstLong(e.opts)
  {
    var i := 0;
    assert e.opts[0..] == e.opts;
    while i < |e.opts|
      invariant 0 <= i <= |e.opts|
      invariant FirstLong(e.opts) == FirstLong(e.opts[i..])
    {
      if e.opts[i].name.Some? && !e.opts[i].hidden {
        return e.opts[i].name;
      }
      assert e.opts[i..][1..] == e.opts[i + 1..];
      i := i + 1;
    }
    return None;
  }
}
