/** One round of argp_parse: what each answer of getopt leads to. */
module RunStep {
  import opened ArgpOptions
  import opened ParserTables
  import opened ArgpDispatch
  import opened ArgpRun

  type Ask = seq<Event> -> Answer
  type Getopt = (seq<Event>, nat) -> GetoptAnswer

  /** When getopt is asked: it has not reported the end since the last retry,
      and the position is not behind a "--". */
  predicate AsksGetopt(m: Moment) {
    m.tryGetopt && (m.p.quoted == 0 || m.p.next < m.p.quoted)
  }

  /** getopt is asked at most once, and then from where it leaves the
      position. */
  lemma AskedIff(t: Tables, ask: Ask, getopt: Getopt, m: Moment)
    ensures NextOf(t, ask, getopt, m).0.m.scans == m.scans + if AsksGetopt(m) then 1 else 0
  {
    hide ArgOf, OptOf;
    var n := if m.p.quoted != 0 && m.p.next < m.p.quoted then m.(p := m.p.(quoted := 0)) else m;
    var a := getopt(n.events, n.scans);
    var scanned := n.(scans := n.scans + 1, p := n.p.(next := a.optind));
    ArgIsNoOption(t.groups, ask, Moved(n, 1));
    ArgIsNoOption(t.groups, ask, scanned);
    ArgKeepsScans(t.groups, ask, scanned);
    var quote := a.optind > 1 && a.afterQuote;
    var ended := scanned.(tryGetopt := false, p := if quote then scanned.p.(quoted := a.optind) else scanned.p);
    ArgIsNoOption(t.groups, ask, Moved(ended, 1));
    OptKeepsScans(t, ask, scanned, a.opt);
  }

  lemma OptKeepsScans(t: Tables, ask: Ask, m: Moment, opt: int)
    ensures OptOf(t, ask, m, opt).m.scans == m.scans
  {
    hide Dispatch;
  }

  /** getopt's error: '?' with the offending character in optopt.  No parser
      is called and the round fails with EBADKEY, which is not about an
      argument. */
  lemma GetoptError(t: Tables, ask: Ask, getopt: Getopt, m: Moment)
    requires AsksGetopt(m)
    requires var a := getopt(m.events, m.scans); a.opt == '?' as int && a.optopt != -1
    ensures var (o, argEbadkey) := NextOf(t, ask, getopt, m);
            o.err == 7 && !argEbadkey && o.m.events == m.events && o.m.tryGetopt
            && o.m.p == m.p.(next := getopt(m.events, m.scans).optind, quoted := 0)
  {
  }

  /** An option that getopt found, a genuine '?' among them: exactly the call
      to its target is made, and an EBADKEY is not about an argument. */
  lemma GetoptOption(t: Tables, ask: Ask, getopt: Getopt, m: Moment)
    requires AsksGetopt(m)
    requires var a := getopt(m.events, m.scans);
             a.opt != -1 && a.opt != 1 && (a.opt == '?' as int ==> a.optopt == -1)
    ensures var a := getopt(m.events, m.scans);
            var (o, argEbadkey) := NextOf(t, ask, getopt, m);
            && !argEbadkey
            && match Dispatch(t, a.opt)
               case NoTarget => o.m.events == m.events && o.err == 7
               case To(g, key) =>
                 if HasParser(t.groups, g) then
                   && o.m.events == m.events + [Call(g, Key.Opt(key))]
                   && o.err == ask(o.m.events).err && o.m.p == ask(o.m.events).position
                 else o.m.events == m.events && o.err == 7
  {
    hide Dispatch, ArgOf;
  }

  /** For every tree: a genuine '?' goes to the first argp that declares it,
      as any other short option does. */
  lemma ShortOptionIsCalled(a: Argp, inOrder: bool, ask: Ask, getopt: Getopt, m: Moment)
    requires AsksGetopt(m)
    requires var g := getopt(m.events, m.scans);
             && 1 < g.opt < 256 && g.opt != COLON && !(inOrder && g.opt == DASH)
             && (g.opt == '?' as int ==> g.optopt == -1)
    ensures var t, k := TablesOf(a, inOrder), getopt(m.events, m.scans).opt;
            var (o, _) := NextOf(t, ask, getopt, m);
            var p := FirstParser(Nodes(a), k);
            && (p == |Nodes(a)| ==> o.m.events == m.events && o.err == 7)
            && (p < |Nodes(a)| ==>
                  exists g :: 0 <= g < |t.groups| && t.groups[g].node == p
                    && o.m.events == m.events + if HasParser(t.groups, g) then [Call(g, Key.Opt(k))] else [])
  {
    hide TablesOf, Nodes, FirstParser, Dispatch, NextOf;
    var t, k := TablesOf(a, inOrder), getopt(m.events, m.scans).opt;
    ShortGoesToFirstParser(a, inOrder, k);
    GetoptOption(t, ask, getopt, m);
    assert m.events + [] == m.events;
  }

  /** getopt's end: it is not asked again before an argument asks for a retry,
      a "--" just passed is remembered, and the next argument is offered if
      there is one and arguments are wanted. */
  lemma GetoptEnd(t: Tables, ask: Ask, getopt: Getopt, m: Moment)
    requires AsksGetopt(m) && getopt(m.events, m.scans).opt == -1
    ensures var a := getopt(m.events, m.scans);
            var quoted := if a.optind > 1 && a.afterQuote then a.optind else 0;
            var ended := Moment(m.p.(next := a.optind, quoted := quoted), false, m.scans + 1, m.events);
            var (o, argEbadkey) := NextOf(t, ask, getopt, m);
            && (a.optind >= m.p.argc || m.p.flags.noArgs ==> o == Outcome(ended, 7) && argEbadkey)
            && (a.optind < m.p.argc && !m.p.flags.noArgs ==>
                  o == ArgOf(t.groups, ask, ended.(p := ended.p.(next := a.optind + 1))) && argEbadkey == (o.err == 7))
  {
    hide ArgOf, OptOf;
  }

  /** An argument that getopt returns in its place. */
  lemma GetoptArgument(t: Tables, ask: Ask, getopt: Getopt, m: Moment)
    requires AsksGetopt(m) && getopt(m.events, m.scans).opt == 1
    ensures var a := getopt(m.events, m.scans);
            var (o, argEbadkey) := NextOf(t, ask, getopt, m);
            && o == ArgOf(t.groups, ask, Moment(m.p.(next := a.optind, quoted := 0), true, m.scans + 1, m.events))
            && argEbadkey == (o.err == 7)
  {
    hide ArgOf, OptOf;
  }

  /** Without getopt: the end, or the next argument. */
  lemma WithoutGetopt(t: Tables, ask: Ask, getopt: Getopt, m: Moment)
    requires !AsksGetopt(m)
    ensures var quoted := if m.p.next < m.p.quoted then 0 else m.p.quoted;
            var n := m.(p := m.p.(quoted := quoted));
            var (o, argEbadkey) := NextOf(t, ask, getopt, m);
            && (m.p.next >= m.p.argc || m.p.flags.noArgs ==> o.err == 7 && argEbadkey && o.m.events == m.events)
            && (m.p.next < m.p.argc && !m.p.flags.noArgs ==>
                  o == ArgOf(t.groups, ask, n.(p := n.p.(next := m.p.next + 1))) && argEbadkey == (o.err == 7))
  {
    hide ArgOf, OptOf;
  }

  /** The loop: rounds that succeed follow one another, from the moment each
      leaves, until one fails or their number is used up. */
  lemma {:induction false} RoundsFollow(t: Tables, ask: Ask, getopt: Getopt, m: Moment, fuel: nat)
      returns (ms: seq<Moment>)
    ensures 0 < |ms| <= fuel + 1 && ms[0] == m
    ensures forall k :: 0 <= k < |ms| - 1 ==> NextOf(t, ask, getopt, ms[k]).0 == Outcome(ms[k + 1], 0)
    ensures var (o, argEbadkey) := RoundsOf(t, ask, getopt, m, fuel);
            && (o.err == 0 ==> |ms| == fuel + 1 && o.m == ms[fuel])
            && (o.err != 0 ==> NextOf(t, ask, getopt, ms[|ms| - 1]) == (o, argEbadkey))
    decreases fuel
  {
    hide NextOf;
    ms := [m];
    if fuel > 0 {
      var (o, argEbadkey) := NextOf(t, ask, getopt, m);
      if o.err == 0 {
        var rest := RoundsFollow(t, ask, getopt, o.m, fuel - 1);
        ms := [m] + rest;
      }
    }
  }

  // ---------------------------------------------------------------------
  // An argument

  /** The answer to the last call made for an argument decides: its error and
      the position it leaves.  Groups without a parser leave no trace. */
  lemma {:induction false} TakerDecides(groups: seq<Group>, ask: Ask, m: Moment, g: nat)
    requires g <= |groups|
    ensures var o := Offer(groups, ask, m, g).o;
            && |m.events| <= |o.m.events| && o.m.tryGetopt == m.tryGetopt
            && (o.err != 7 ==> o.err == ask(o.m.events).err && o.m.p == ask(o.m.events).position)
            && (o.m.events == m.events ==> o == Outcome(m, 7))
            && (o.err == 7 && o.m.events != m.events ==> o.m.p == ask(o.m.events).position)
    decreases |groups| - g
  {
    if g < |groups| {
      var one := CallOf(groups, ask, Moved(m, 1), g, Arg);
      var all := CallOf(groups, ask, Moved(one.m, -1), g, Args);
      CallAdds(groups, ask, Moved(m, 1), g, Arg);
      CallAdds(groups, ask, Moved(one.m, -1), g, Args);
      TakerDecides(groups, ask, all.m, g + 1);
    }
  }

  /** An argument that is taken: ARGS takes all that are left, ARG those that
      its parser has moved past; whoever takes none has getopt tried again. */
  lemma Consumed(groups: seq<Group>, ask: Ask, m: Moment)
    ensures var first := m.p.next - 1;
            var f := Offer(groups, ask, m.(p := m.p.(next := first)), 0);
            var o := ArgOf(groups, ask, m);
            && o.err == f.o.err
            && (o.err != 0 ==> o == f.o)
            && (o.err == 0 && f.key.Args? ==> o.m.p.next == o.m.p.argc)
            && (o.err == 0 && !f.key.Args? ==> o.m.p == f.o.m.p)
            && (o.err == 0 ==> o.m.p == f.o.m.p.(next := o.m.p.next))
            && (o.err == 0 && o.m.p.next > first ==>
                  o.m.events == f.o.m.events + [Credit(f.taker, o.m.p.next - first)])
            && (o.err == 0 && o.m.p.next <= first ==> o.m.tryGetopt && o.m.events == f.o.m.events)
  {
    hide Offer;
    assert Moved(m, -1) == m.(p := m.p.(next := m.p.next - 1));
  }

  // ---------------------------------------------------------------------
  // The start

  /** Initialisation succeeds exactly when nobody answers INIT with an error
      other than EBADKEY; then everybody has been called, and an argument is
      added for a faked argv[0]. */
  lemma StartsIff(groups: seq<Group>, ask: Ask, m: Moment)
    ensures var o := StartOf(groups, ask, m);
            && (o.err == 0 <==> forall g :: 0 <= g < |groups| ==> InitPasses(groups, ask, m, g))
            && (o.err == 0 ==> o.m.events == m.events + InitCalls(groups))
            && (o.err == 0 && InitCalls(groups) != [] ==>
                  var p := ask(o.m.events).position;
                  o.m.p == p.(argc := p.argc + if p.flags.noErrs && p.flags.parseArgv0 then 1 else 0))
  {
    hide CallsFor;
    InitPassesUpTo(groups, ask, m, |groups|);
    if !Fatal(InitOf(groups, ask, m, |groups|).err) {
      InitAdds(groups, ask, m, |groups|);
      InitLeaves(groups, ask, m, |groups|);
    }
  }

  /** Group `g` does not end initialisation, those before it not having done
      so. */
  predicate InitPasses(groups: seq<Group>, ask: Ask, m: Moment, g: nat) {
    HasParser(groups, g) ==> var e := ask(m.events + CallsFor(groups, Init, Up(g + 1))).err; e == 0 || e == 7
  }

  lemma {:induction false} InitPassesUpTo(groups: seq<Group>, ask: Ask, m: Moment, n: nat)
    ensures !Fatal(InitOf(groups, ask, m, n).err) <==> forall g :: 0 <= g < n ==> InitPasses(groups, ask, m, g)
  {
    hide CallsFor;
    if n > 0 {
      InitPassesUpTo(groups, ask, m, n - 1);
      if !Fatal(InitOf(groups, ask, m, n - 1).err) {
        InitAdds(groups, ask, m, n - 1);
        NextCall(groups, m.events, Init, Up(n - 1), n - 1);
        assert Up(n) == Up(n - 1) + [n - 1];
        assert InitPasses(groups, ask, m, n - 1) <==> !Fatal(InitOf(groups, ask, m, n).err);
      }
    }
  }

  /** The position is the one that the last parser called leaves. */
  lemma {:induction false} InitLeaves(groups: seq<Group>, ask: Ask, m: Moment, n: nat)
    requires !Fatal(InitOf(groups, ask, m, n).err)
    ensures var o := InitOf(groups, ask, m, n);
            if CallsFor(groups, Init, Up(n)) == [] then o.m == m else o.m.p == ask(o.m.events).position
  {
    hide CallsFor;
    if n == 0 {
      CallsForNone(groups, Init);
    } else {
      InitLeaves(groups, ask, m, n - 1);
      CallsForSnoc(groups, Init, Up(n - 1), n - 1);
      if !HasParser(groups, n - 1) {
        assert CallsFor(groups, Init, Up(n - 1)) + [] == CallsFor(groups, Init, Up(n - 1));
      }
    }
  }
}
