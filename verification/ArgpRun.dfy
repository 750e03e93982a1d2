/** One call of argp_parse: which parser is called with which key, when. */
module ArgpRun {
  import opened FirstSeen
  import opened ParserTables
  import opened ArgpDispatch

  const EBADKEY := 7
  const EINVAL := 22

  // what getopt returns besides options
  const KEY_END := -1
  const KEY_ARG := 1
  const KEY_ERR := '?' as int

  /** The key of a call: one of the ARGP_KEY_ constants or an option's. */
  datatype Key = Init | Opt(key: int) | Arg | Args | NoArgs | End | Error | Success | Fini

  /** A call of a group's parser, or arguments credited to a group. */
  datatype Event = Call(group: int, key: Key) | Credit(group: int, count: nat)

  /** The flags of the state that this part of argp reads. */
  datatype Flags = Flags(noArgs: bool, noErrs: bool, parseArgv0: bool)

  /** The fields of argp_state that a parser may change. */
  datatype Position = Position(next: int, argc: int, quoted: int, flags: Flags)

  /** What a user's parser does: its error code and the state it leaves. */
  datatype Answer = Answer(err: int, position: Position)

  /** What getopt does: its value, optind, optopt, and whether the argument
      before optind is "--". */
  datatype GetoptAnswer = GetoptAnswer(opt: int, optind: int, optopt: int, afterQuote: bool)

  // ---------------------------------------------------------------------
  // The shape of a run

  predicate HasParser(groups: seq<Group>, g: int) {
    0 <= g < |groups| && groups[g].argp.hasParser
  }

  /** The groups 0, 1, ..., n - 1. */
  function Up(n: nat): seq<int> {
    if n == 0 then [] else Up(n - 1) + [n - 1]
  }

  /** The groups n - 1, n - 2, ..., i. */
  function Down(n: nat, i: nat): seq<int>
    decreases n - i
  {
    if i >= n then [] else Down(n, i + 1) + [i]
  }

  /** The groups of 0, ..., n - 1 to which `body` credits no argument. */
  function IdleUp(body: seq<Event>, n: nat): seq<int> {
    if n == 0 then [] else IdleUp(body, n - 1) + if Idle(body, n - 1) then [n - 1] else []
  }

  predicate Idle(events: seq<Event>, g: int) {
    forall i :: 0 <= i < |events| ==> !(events[i].Credit? && events[i].group == g)
  }

  /** Calls with one key, in the given order, of the groups that have a parser. */
  function CallsFor(groups: seq<Group>, key: Key, order: seq<int>): seq<Event> {
    if order == [] then []
    else
      var g := order[|order| - 1];
      CallsFor(groups, key, order[..|order| - 1]) + if HasParser(groups, g) then [Call(g, key)] else []
  }

  lemma CallsForNone(groups: seq<Group>, key: Key)
    ensures CallsFor(groups, key, []) == []
  {
  }

  lemma CallsForSnoc(groups: seq<Group>, key: Key, order: seq<int>, g: int)
    ensures CallsFor(groups, key, order + [g])
            == CallsFor(groups, key, order) + if HasParser(groups, g) then [Call(g, key)] else []
  {
    assert (order + [g])[..|order|] == order;
  }

  lemma NextCall(groups: seq<Group>, before: seq<Event>, key: Key, order: seq<int>, g: int)
    ensures before + CallsFor(groups, key, order + [g])
            == before + CallsFor(groups, key, order) + if HasParser(groups, g) then [Call(g, key)] else []
  {
    CallsForSnoc(groups, key, order, g);
    Assoc(before, CallsFor(groups, key, order), if HasParser(groups, g) then [Call(g, key)] else []);
  }

  /** The events between initialisation and the end of the arguments. */
  predicate IsBody(groups: seq<Group>, body: seq<Event>) {
    forall i :: 0 <= i < |body| ==>
      body[i].Call? ==> HasParser(groups, body[i].group) && (body[i].key.Opt? || body[i].key.Arg? || body[i].key.Args?)
  }

  /** How far each stage of a run got. */
  datatype Stages = Stages(body: seq<Event>, idleTo: nat, endFrom: nat, failed: bool, successFrom: nat)

  function InitCalls(groups: seq<Group>): seq<Event> {
    CallsFor(groups, Init, Up(|groups|))
  }

  function NoArgsCalls(groups: seq<Group>, s: Stages): seq<Event> {
    CallsFor(groups, NoArgs, IdleUp(s.body, s.idleTo))
  }

  function EndCalls(groups: seq<Group>, s: Stages): seq<Event> {
    CallsFor(groups, End, Down(|groups|, s.endFrom))
  }

  function LastCalls(groups: seq<Group>, s: Stages): seq<Event> {
    if s.failed then CallsFor(groups, Error, Up(|groups|))
    else CallsFor(groups, Success, Down(|groups|, s.successFrom))
  }

  function FiniCalls(groups: seq<Group>): seq<Event> {
    CallsFor(groups, Fini, Down(|groups|, 0))
  }

  function RunOf(groups: seq<Group>, s: Stages): seq<Event> {
    InitCalls(groups) + s.body + NoArgsCalls(groups, s) + EndCalls(groups, s) + LastCalls(groups, s) + FiniCalls(groups)
  }

  /** A run that succeeds: every group hears of the success, and either every
      group of the end and every idle one of no arguments, or none, the rest
      of the arguments being left to the caller. */
  predicate CompleteRun(groups: seq<Group>, s: Stages, endIndex: bool) {
    && !s.failed && s.successFrom == 0
    && ((s.idleTo == |groups| && s.endFrom == 0) || (endIndex && s.idleTo == 0 && s.endFrom == |groups|))
  }

  ghost predicate IsRun(groups: seq<Group>, events: seq<Event>, s: Stages) {
    events == RunOf(groups, s) && IsBody(groups, s.body) && s.idleTo <= |groups|
  }

  // ---------------------------------------------------------------------
  // One argument at a time

  /** What a parser's state amounts to between two calls. */
  datatype Moment = Moment(p: Position, tryGetopt: bool, scans: nat, events: seq<Event>)

  datatype Outcome = Outcome(m: Moment, err: int)

  /** A moment with its next argument moved by `d`. */
  function Moved(m: Moment, d: int): Moment {
    m.(p := m.p.(next := m.p.next + d))
  }

  /** The call of one group's parser. */
  function CallOf(groups: seq<Group>, ask: seq<Event> -> Answer, m: Moment, g: int, key: Key): Outcome {
    if HasParser(groups, g) then
      var events := m.events + [Call(g, key)];
      Outcome(m.(p := ask(events).position, events := events), ask(events).err)
    else Outcome(m, EBADKEY)
  }

  /** An answer that ends a round of calls. */
  predicate Fatal(err: int) {
    err != 0 && err != EBADKEY
  }

  /** The first `n` groups called with ARGP_KEY_INIT, until an error. */
  function InitOf(groups: seq<Group>, ask: seq<Event> -> Answer, m: Moment, n: nat): Outcome {
    if n == 0 then Outcome(m, 0)
    else
      var o := InitOf(groups, ask, m, n - 1);
      if Fatal(o.err) then o else CallOf(groups, ask, o.m, n - 1, Init)
  }

  lemma {:induction false} InitStops(groups: seq<Group>, ask: seq<Event> -> Answer, m: Moment, g: nat, n: nat)
    requires g <= n && Fatal(InitOf(groups, ask, m, g).err)
    ensures InitOf(groups, ask, m, n) == InitOf(groups, ask, m, g)
  {
    if g < n {
      InitStops(groups, ask, m, g, n - 1);
    }
  }

  lemma {:induction false} InitAdds(groups: seq<Group>, ask: seq<Event> -> Answer, m: Moment, n: nat)
    requires !Fatal(InitOf(groups, ask, m, n).err)
    ensures InitOf(groups, ask, m, n).m.events == m.events + CallsFor(groups, Init, Up(n))
  {
    if n == 0 {
      assert m.events + [] == m.events;
    } else {
      hide CallsFor, CallOf;
      InitAdds(groups, ask, m, n - 1);
      NextCall(groups, m.events, Init, Up(n - 1), n - 1);
      CallAdds(groups, ask, InitOf(groups, ask, m, n - 1).m, n - 1, Init);
    }
  }

  /** parser_init, from its first call on */
  function StartOf(groups: seq<Group>, ask: seq<Event> -> Answer, m: Moment): Outcome {
    var o := InitOf(groups, ask, m, |groups|);
    if Fatal(o.err) then o
    else
      var fake := o.m.p.flags.noErrs && o.m.p.flags.parseArgv0;
      Outcome(if fake then o.m.(p := o.m.p.(argc := o.m.p.argc + 1)) else o.m, 0)
  }

  /** What happens to an argument: the outcome, whether it was last offered
      with ARG or ARGS, and the group it was offered to. */
  datatype Offered = Offered(o: Outcome, key: Key, taker: nat)

  /** An argument offered to group `g` and, while they decline, those after. */
  function Offer(groups: seq<Group>, ask: seq<Event> -> Answer, m: Moment, g: nat): Offered
    requires g <= |groups|
    decreases |groups| - g
  {
    if g == |groups| then Offered(Outcome(m, EBADKEY), Arg, g)
    else
      var one := CallOf(groups, ask, Moved(m, 1), g, Arg);
      if one.err != EBADKEY then Offered(one, Arg, g)
      else
        var all := CallOf(groups, ask, Moved(one.m, -1), g, Args);
        if all.err != EBADKEY then Offered(all, Args, g) else Offer(groups, ask, all.m, g + 1)
  }

  /** An argument that was taken: how many are consumed, and who is credited. */
  function Credited(f: Offered, index: int): Outcome {
    if f.o.err != 0 then f.o
    else
      var m := if f.key.Args? then f.o.m.(p := f.o.m.p.(next := f.o.m.p.argc)) else f.o.m;
      if m.p.next > index then Outcome(m.(events := m.events + [Credit(f.taker, m.p.next - index)]), 0)
      else Outcome(m.(tryGetopt := true), 0)
  }

  function ArgOf(groups: seq<Group>, ask: seq<Event> -> Answer, m: Moment): Outcome {
    Credited(Offer(groups, ask, Moved(m, -1), 0), m.p.next - 1)
  }

  function OptOf(t: Tables, ask: seq<Event> -> Answer, m: Moment, opt: int): Outcome {
    match Dispatch(t, opt)
    case NoTarget => Outcome(m, EBADKEY)
    case To(group, key) => CallOf(t.groups, ask, m, group, Key.Opt(key))
  }

  /** The next argument as getopt or, past the options, the position gives it;
      and whether EBADKEY means an argument that nobody took. */
  function NextOf(t: Tables, ask: seq<Event> -> Answer, getopt: (seq<Event>, nat) -> GetoptAnswer, m: Moment):
      (Outcome, bool) {
    var back := m.p.quoted != 0 && m.p.next < m.p.quoted;
    var n := if back then m.(p := m.p.(quoted := 0)) else m;
    if !(n.tryGetopt && n.p.quoted == 0) then PlainNext(t, ask, n)
    else
      var a := getopt(n.events, n.scans);
      var scanned := n.(scans := n.scans + 1, p := n.p.(next := a.optind));
      if a.opt == KEY_END then
        var quote := a.optind > 1 && a.afterQuote;
        PlainNext(t, ask, scanned.(tryGetopt := false,
                                   p := if quote then scanned.p.(quoted := a.optind) else scanned.p))
      else if a.opt == KEY_ERR && a.optopt != KEY_END then (Outcome(scanned, EBADKEY), false)
      else if a.opt == KEY_ARG then
        var o := ArgOf(t.groups, ask, scanned);
        (o, o.err == EBADKEY)
      else (OptOf(t, ask, scanned, a.opt), false)
  }

  /** The next argument when getopt has nothing to say. */
  function PlainNext(t: Tables, ask: seq<Event> -> Answer, m: Moment): (Outcome, bool) {
    if m.p.next >= m.p.argc || m.p.flags.noArgs then (Outcome(m, EBADKEY), true)
    else
      var o := ArgOf(t.groups, ask, Moved(m, 1));
      (o, o.err == EBADKEY)
  }

  /** The calls that offer an argument to the groups from `g` up to `n`, all
      of which decline. */
  function Declined(groups: seq<Group>, g: nat, n: nat): seq<Event>
    decreases n - g
  {
    if g >= n then []
    else (if HasParser(groups, g) then [Call(g, Arg), Call(g, Args)] else []) + Declined(groups, g + 1, n)
  }

  /** The calls to the group that an argument was last offered to. */
  function LastOffer(f: Offered, n: nat): seq<Event> {
    if f.taker == n then []
    else if f.key.Arg? then [Call(f.taker, Arg)] else [Call(f.taker, Arg), Call(f.taker, Args)]
  }

  lemma CallAdds(groups: seq<Group>, ask: seq<Event> -> Answer, m: Moment, g: int, key: Key)
    ensures var o := CallOf(groups, ask, m, g, key);
            && o.m.events == m.events + (if HasParser(groups, g) then [Call(g, key)] else [])
            && (o.err != EBADKEY ==> HasParser(groups, g))
  {
  }

  lemma Regrouped(events: seq<Event>, asked: seq<Event>, d: seq<Event>, last: seq<Event>)
    ensures events + asked + (d + last) == events + ((asked + d) + last)
  {
  }

  /** An argument is offered to the groups in their order, first as ARG and
      then as ARGS, up to the first that does not decline; no later group
      hears of it. */
  lemma {:induction false} OfferedInOrder(groups: seq<Group>, ask: seq<Event> -> Answer, m: Moment, g: nat)
    requires g <= |groups|
    ensures var f := Offer(groups, ask, m, g);
            && g <= f.taker <= |groups| && (f.taker == |groups| <==> f.o.err == EBADKEY)
            && (f.taker < |groups| ==> HasParser(groups, f.taker))
            && f.o.m.events == m.events + (Declined(groups, g, f.taker) + LastOffer(f, |groups|))
    decreases |groups| - g
  {
    hide CallOf;
    if g == |groups| {
      assert m.events + ([] + []) == m.events;
    } else {
      var one := CallOf(groups, ask, Moved(m, 1), g, Arg);
      var all := CallOf(groups, ask, Moved(one.m, -1), g, Args);
      CallAdds(groups, ask, Moved(m, 1), g, Arg);
      CallAdds(groups, ask, Moved(one.m, -1), g, Args);
      if one.err != EBADKEY {
        assert [] + [Call(g, Arg)] == [Call(g, Arg)];
      } else if all.err != EBADKEY {
        assert m.events + [Call(g, Arg)] + [Call(g, Args)] == m.events + ([] + [Call(g, Arg), Call(g, Args)]);
      } else {
        var asked := if HasParser(groups, g) then [Call(g, Arg), Call(g, Args)] else [];
        assert all.m.events == m.events + asked;
        OfferedInOrder(groups, ask, all.m, g + 1);
        var f := Offer(groups, ask, all.m, g + 1);
        assert f == Offer(groups, ask, m, g);
        assert Declined(groups, g, f.taker) == asked + Declined(groups, g + 1, f.taker);
        hide Offer, Declined, LastOffer;
        Regrouped(m.events, asked, Declined(groups, g + 1, f.taker), LastOffer(f, |groups|));
      }
    }
  }

  /** Of an argument at most one group is credited, the one that took it, with
      as many arguments as the position moved on. */
  lemma OnlyTakerCredited(groups: seq<Group>, ask: seq<Event> -> Answer, m: Moment)
    ensures var f := Offer(groups, ask, Moved(m, -1), 0);
            var e := ArgOf(groups, ask, m).m;
            && (e.events == f.o.m.events ||
                (f.taker < |groups| && f.o.err == 0 && e.p.next >= m.p.next
                 && e.events == f.o.m.events + [Credit(f.taker, e.p.next - (m.p.next - 1))]))
            && (f.o.err == 0 && e.events == f.o.m.events ==> e.tryGetopt && e.p.next < m.p.next)
            && (f.o.err == 0 ==> e.p == if f.key.Args? then f.o.m.p.(next := f.o.m.p.argc) else f.o.m.p)
  {
    hide Offer, Declined, LastOffer, CallOf;
    OfferedInOrder(groups, ask, Moved(m, -1), 0);
  }

  predicate NoOptions(events: seq<Event>) {
    forall i :: 0 <= i < |events| ==> !(events[i].Call? && events[i].key.Opt?)
  }

  lemma {:induction false} DeclinedHasNoOptions(groups: seq<Group>, g: nat, n: nat)
    ensures NoOptions(Declined(groups, g, n))
    decreases n - g
  {
    if g < n {
      DeclinedHasNoOptions(groups, g + 1, n);
    }
  }

  lemma {:induction false} OfferKeepsScans(groups: seq<Group>, ask: seq<Event> -> Answer, m: Moment, g: nat)
    requires g <= |groups|
    ensures Offer(groups, ask, m, g).o.m.scans == m.scans
    decreases |groups| - g
  {
    if g < |groups| {
      var one := CallOf(groups, ask, Moved(m, 1), g, Arg);
      var all := CallOf(groups, ask, Moved(one.m, -1), g, Args);
      OfferKeepsScans(groups, ask, all.m, g + 1);
    }
  }

  /** An argument asks getopt nothing and is no option. */
  lemma ArgIsNoOption(groups: seq<Group>, ask: seq<Event> -> Answer, m: Moment)
    ensures var e := ArgOf(groups, ask, m).m;
            e.scans == m.scans && m.events <= e.events && NoOptions(e.events[|m.events|..])
  {
    hide Offer, ArgOf, Declined, LastOffer, NoOptions;
    var f := Offer(groups, ask, Moved(m, -1), 0);
    var e := ArgOf(groups, ask, m).m;
    OfferKeepsScans(groups, ask, Moved(m, -1), 0);
    OfferedInOrder(groups, ask, Moved(m, -1), 0);
    OnlyTakerCredited(groups, ask, m);
    ArgKeepsScans(groups, ask, m);
    DeclinedHasNoOptions(groups, 0, f.taker);
    if e.events == f.o.m.events {
      NoMoreOptions(m.events, Declined(groups, 0, f.taker), f, |groups|, []);
    } else {
      NoMoreOptions(m.events, Declined(groups, 0, f.taker), f, |groups|, [e.events[|e.events| - 1]]);
    }
  }

  lemma ArgKeepsScans(groups: seq<Group>, ask: seq<Event> -> Answer, m: Moment)
    ensures ArgOf(groups, ask, m).m.scans == Offer(groups, ask, Moved(m, -1), 0).o.m.scans
  {
    hide Offer;
  }

  /** Offers and a credit are no options. */
  lemma NoMoreOptions(events: seq<Event>, declined: seq<Event>, f: Offered, n: nat, credit: seq<Event>)
    requires NoOptions(declined) && forall i :: 0 <= i < |credit| ==> credit[i].Credit?
    ensures var all := events + (declined + LastOffer(f, n)) + credit;
            events <= all && NoOptions(all[|events|..])
    ensures events + (declined + LastOffer(f, n)) + [] == events + (declined + LastOffer(f, n))
  {
    var all := events + (declined + LastOffer(f, n)) + credit;
    assert all[|events|..] == declined + LastOffer(f, n) + credit;
  }

  /** Behind a "--" nothing is an option: as long as the position has not been
      moved back before it, getopt is not asked and no option is passed on. */
  lemma NoOptionsBehindQuote(t: Tables, ask: seq<Event> -> Answer, getopt: (seq<Event>, nat) -> GetoptAnswer, m: Moment)
    requires m.p.quoted != 0 && m.p.next >= m.p.quoted
    ensures var (o, _) := NextOf(t, ask, getopt, m);
            && o.m.scans == m.scans && m.events <= o.m.events && NoOptions(o.m.events[|m.events|..])
            && (m.p.next >= m.p.argc ==> o == Outcome(m, EBADKEY))
  {
    ArgIsNoOption(t.groups, ask, Moved(m, 1));
    hide ArgOf;
  }

  // ---------------------------------------------------------------------
  // The end of the arguments

  /** Of the first `n` groups the idle ones are called with ARGP_KEY_NO_ARGS,
      until a fatal answer. */
  function IdleOf(groups: seq<Group>, ask: seq<Event> -> Answer, m: Moment, n: nat): Outcome {
    if n == 0 then Outcome(m, 0)
    else
      var o := IdleOf(groups, ask, m, n - 1);
      if Fatal(o.err) || !Idle(m.events, n - 1) then o else CallOf(groups, ask, o.m, n - 1, NoArgs)
  }

  /** How many of the first `n` groups are considered. */
  function IdleTo(groups: seq<Group>, ask: seq<Event> -> Answer, m: Moment, n: nat): (k: nat)
    ensures k <= n
  {
    if n == 0 then 0
    else if Fatal(IdleOf(groups, ask, m, n - 1).err) then IdleTo(groups, ask, m, n - 1) else n
  }

  /** The groups from the last one back to group `i`, until a fatal answer. */
  function DownOf(groups: seq<Group>, ask: seq<Event> -> Answer, key: Key, start: Outcome, i: nat): Outcome
    decreases |groups| - i
  {
    if i >= |groups| then start
    else
      var o := DownOf(groups, ask, key, start, i + 1);
      if Fatal(o.err) then o else CallOf(groups, ask, o.m, i, key)
  }

  /** The group at which these calls end, or the number of groups. */
  function DownTo(groups: seq<Group>, ask: seq<Event> -> Answer, key: Key, start: Outcome, i: nat): (k: nat)
    ensures k <= |groups|
    decreases |groups| - i
  {
    if i >= |groups| then |groups|
    else if Fatal(DownOf(groups, ask, key, start, i + 1).err) then DownTo(groups, ask, key, start, i + 1) else i
  }

  /** The first `n` groups called, whatever they answer. */
  function AllUp(groups: seq<Group>, ask: seq<Event> -> Answer, key: Key, m: Moment, n: nat): Moment {
    if n == 0 then m else CallOf(groups, ask, AllUp(groups, ask, key, m, n - 1), n - 1, key).m
  }

  /** The groups from the last one back to `i`, whatever they answer. */
  function AllDown(groups: seq<Group>, ask: seq<Event> -> Answer, key: Key, m: Moment, i: nat): Moment
    decreases |groups| - i
  {
    if i >= |groups| then m else CallOf(groups, ask, AllDown(groups, ask, key, m, i + 1), i, key).m
  }

  /** EBADKEY from the last group asked is no error. */
  function Excused(o: Outcome): Outcome {
    if o.err == EBADKEY then o.(err := 0) else o
  }

  function EndOf(groups: seq<Group>, ask: seq<Event> -> Answer, m: Moment, endIndex: bool): Outcome {
    if m.p.next == m.p.argc then Excused(DownOf(groups, ask, End, IdleOf(groups, ask, m, |groups|), 0))
    else Outcome(m, if endIndex then 0 else EBADKEY)
  }

  /** The outcome of the parse as finalisation takes it. */
  function ParsedOf(groups: seq<Group>, ask: seq<Event> -> Answer, parsed: Outcome, argEbadkey: bool, endIndex: bool):
      Outcome {
    if parsed.err == 0 || (parsed.err == EBADKEY && argEbadkey) then EndOf(groups, ask, parsed.m, endIndex) else parsed
  }

  function LastOf(groups: seq<Group>, ask: seq<Event> -> Answer, o: Outcome): Outcome {
    if o.err != 0 then o.(m := AllUp(groups, ask, Error, o.m, |groups|))
    else Excused(DownOf(groups, ask, Success, o, 0))
  }

  /** parser_finalize */
  function FinalOf(groups: seq<Group>, ask: seq<Event> -> Answer, parsed: Outcome, argEbadkey: bool, endIndex: bool):
      Outcome {
    var o := LastOf(groups, ask, ParsedOf(groups, ask, parsed, argEbadkey, endIndex));
    Outcome(AllDown(groups, ask, Fini, o.m, 0), if o.err == EBADKEY then EINVAL else o.err)
  }

  /** Rounds of parser_parse_next, `fuel` at most, until an error. */
  function RoundsOf(t: Tables, ask: seq<Event> -> Answer, getopt: (seq<Event>, nat) -> GetoptAnswer, m: Moment,
                    fuel: nat): (Outcome, bool)
    decreases fuel
  {
    if fuel == 0 then (Outcome(m, 0), false)
    else
      var (o, argEbadkey) := NextOf(t, ask, getopt, m);
      if o.err != 0 then (o, argEbadkey) else RoundsOf(t, ask, getopt, o.m, fuel - 1)
  }

  /** How far the stages of finalisation get, by what the parsers answer. */
  function StagesOf(groups: seq<Group>, ask: seq<Event> -> Answer, body: seq<Event>, parsed: Outcome,
                    argEbadkey: bool, endIndex: bool): Stages {
    var o := ParsedOf(groups, ask, parsed, argEbadkey, endIndex);
    var successFrom := if o.err == 0 then DownTo(groups, ask, Success, o, 0) else |groups|;
    if (parsed.err == 0 || (parsed.err == EBADKEY && argEbadkey)) && parsed.m.p.next == parsed.m.p.argc then
      var idle := IdleOf(groups, ask, parsed.m, |groups|);
      Stages(body, IdleTo(groups, ask, parsed.m, |groups|), DownTo(groups, ask, End, idle, 0), o.err != 0, successFrom)
    else Stages(body, 0, |groups|, o.err != 0, successFrom)
  }

  lemma {:induction false} IdleStops(groups: seq<Group>, ask: seq<Event> -> Answer, m: Moment, g: nat, n: nat)
    requires g <= n && Fatal(IdleOf(groups, ask, m, g).err)
    ensures IdleOf(groups, ask, m, n) == IdleOf(groups, ask, m, g)
  {
    if g < n {
      IdleStops(groups, ask, m, g, n - 1);
    }
  }

  lemma {:induction false} DownStops(groups: seq<Group>, ask: seq<Event> -> Answer, key: Key, start: Outcome,
                                     i: nat, g: nat)
    requires i <= g && Fatal(DownOf(groups, ask, key, start, g).err)
    ensures DownOf(groups, ask, key, start, i) == DownOf(groups, ask, key, start, g)
    ensures i <= g <= |groups| ==> DownTo(groups, ask, key, start, i) == DownTo(groups, ask, key, start, g)
    decreases g - i
  {
    if i < g {
      DownStops(groups, ask, key, start, i + 1, g);
    }
  }

  lemma IdleStep(groups: seq<Group>, ask: seq<Event> -> Answer, m: Moment, n: nat)
    ensures n == 0 ==> IdleOf(groups, ask, m, n) == Outcome(m, 0) && IdleTo(groups, ask, m, n) == 0
    ensures n > 0 ==>
              var o := IdleOf(groups, ask, m, n - 1);
              && (Fatal(o.err) ==> IdleOf(groups, ask, m, n) == o)
              && (Fatal(o.err) ==> IdleTo(groups, ask, m, n) == IdleTo(groups, ask, m, n - 1))
              && (!Fatal(o.err) ==> IdleTo(groups, ask, m, n) == n)
              && (!Fatal(o.err) && !Idle(m.events, n - 1) ==> IdleOf(groups, ask, m, n) == o)
              && (!Fatal(o.err) && Idle(m.events, n - 1) ==>
                    IdleOf(groups, ask, m, n) == CallOf(groups, ask, o.m, n - 1, NoArgs))
  {
    hide Idle, CallOf;
  }

  lemma {:induction false} IdleAdds(groups: seq<Group>, ask: seq<Event> -> Answer, m: Moment, n: nat)
    ensures var k := IdleTo(groups, ask, m, n);
            IdleOf(groups, ask, m, n).m.events == m.events + CallsFor(groups, NoArgs, IdleUp(m.events, k))
    ensures !Fatal(IdleOf(groups, ask, m, n).err) ==> IdleTo(groups, ask, m, n) == n
  {
    hide Idle, CallsFor, CallOf, IdleOf, IdleTo, IdleUp, Fatal;
    IdleStep(groups, ask, m, n);
    if n == 0 {
      NobodyIdle(m.events);
      CallsForNone(groups, NoArgs);
      assert m.events + [] == m.events;
    } else {
      IdleAdds(groups, ask, m, n - 1);
      var o := IdleOf(groups, ask, m, n - 1);
      CallAdds(groups, ask, o.m, n - 1, NoArgs);
      IdleUpStep(m.events, n);
      NextCall(groups, m.events, NoArgs, IdleUp(m.events, n - 1), n - 1);
    }
  }

  lemma NobodyIdle(body: seq<Event>)
    ensures IdleUp(body, 0) == []
  {
  }

  lemma IdleUpStep(body: seq<Event>, n: nat)
    requires n > 0
    ensures IdleUp(body, n) == if Idle(body, n - 1) then IdleUp(body, n - 1) + [n - 1] else IdleUp(body, n - 1)
  {
    hide Idle;
    assert IdleUp(body, n - 1) + [] == IdleUp(body, n - 1);
  }

  lemma {:induction false} DownAdds(groups: seq<Group>, ask: seq<Event> -> Answer, key: Key, start: Outcome, i: nat)
    ensures DownOf(groups, ask, key, start, i).m.events
            == start.m.events + CallsFor(groups, key, Down(|groups|, DownTo(groups, ask, key, start, i)))
    ensures !Fatal(DownOf(groups, ask, key, start, i).err) && i <= |groups| ==> DownTo(groups, ask, key, start, i) == i
    decreases |groups| - i
  {
    hide CallsFor, CallOf;
    if i >= |groups| {
      CallsForNone(groups, key);
      assert start.m.events + [] == start.m.events;
    } else {
      DownAdds(groups, ask, key, start, i + 1);
      var o := DownOf(groups, ask, key, start, i + 1);
      if !Fatal(o.err) {
        CallAdds(groups, ask, o.m, i, key);
        NextCall(groups, start.m.events, key, Down(|groups|, i + 1), i);
      }
    }
  }

  lemma {:induction false} AllUpAdds(groups: seq<Group>, ask: seq<Event> -> Answer, key: Key, m: Moment, n: nat)
    ensures AllUp(groups, ask, key, m, n).events == m.events + CallsFor(groups, key, Up(n))
  {
    hide CallsFor, CallOf;
    if n == 0 {
      CallsForNone(groups, key);
      assert m.events + [] == m.events;
    } else {
      AllUpAdds(groups, ask, key, m, n - 1);
      CallAdds(groups, ask, AllUp(groups, ask, key, m, n - 1), n - 1, key);
      NextCall(groups, m.events, key, Up(n - 1), n - 1);
    }
  }

  lemma {:induction false} AllDownAdds(groups: seq<Group>, ask: seq<Event> -> Answer, key: Key, m: Moment, i: nat)
    ensures AllDown(groups, ask, key, m, i).events == m.events + CallsFor(groups, key, Down(|groups|, i))
    decreases |groups| - i
  {
    hide CallsFor, CallOf;
    if i >= |groups| {
      CallsForNone(groups, key);
      assert m.events + [] == m.events;
    } else {
      AllDownAdds(groups, ask, key, m, i + 1);
      CallAdds(groups, ask, AllDown(groups, ask, key, m, i + 1), i, key);
      NextCall(groups, m.events, key, Down(|groups|, i + 1), i);
    }
  }

  /** Initialisation credits nobody. */
  lemma IdleInRun(groups: seq<Group>, body: seq<Event>, g: int)
    ensures Idle(InitCalls(groups) + body, g) <==> Idle(body, g)
  {
    var all := InitCalls(groups) + body;
    CallsAreCalls(groups, Init, Up(|groups|));
    hide CallsFor;
    assert forall i :: 0 <= i < |body| ==> all[|InitCalls(groups)| + i] == body[i];
    assert forall i :: 0 <= i < |InitCalls(groups)| ==> all[i] == InitCalls(groups)[i];
    assert forall i :: |InitCalls(groups)| <= i < |all| ==> all[i] == body[i - |InitCalls(groups)|];
  }

  lemma {:induction false} CallsAreCalls(groups: seq<Group>, key: Key, order: seq<int>)
    ensures forall i :: 0 <= i < |CallsFor(groups, key, order)| ==> CallsFor(groups, key, order)[i].Call?
    decreases |order|
  {
    if order != [] {
      CallsAreCalls(groups, key, order[..|order| - 1]);
    }
  }

  lemma {:induction false} SameIdle(a: seq<Event>, b: seq<Event>, n: nat)
    requires forall g :: Idle(a, g) <==> Idle(b, g)
    ensures IdleUp(a, n) == IdleUp(b, n)
  {
    if n > 0 {
      hide Idle;
      SameIdle(a, b, n - 1);
    }
  }

  /** What finalisation adds to the events of a parse. */
  lemma FinalIsRun(groups: seq<Group>, ask: seq<Event> -> Answer, body: seq<Event>, parsed: Outcome,
                   argEbadkey: bool, endIndex: bool)
    requires parsed.m.events == InitCalls(groups) + body && IsBody(groups, body)
    ensures IsRun(groups, FinalOf(groups, ask, parsed, argEbadkey, endIndex).m.events,
                  StagesOf(groups, ask, body, parsed, argEbadkey, endIndex))
  {
    hide IdleOf, IdleTo, DownOf, DownTo, AllUp, AllDown, CallsFor, IdleUp, Idle, Up, Down;
    var s := StagesOf(groups, ask, body, parsed, argEbadkey, endIndex);
    var o := ParsedOf(groups, ask, parsed, argEbadkey, endIndex);
    ParsedAdds(groups, ask, body, parsed, argEbadkey, endIndex);
    var l := LastOf(groups, ask, o);
    LastAdds(groups, ask, o);
    AllDownAdds(groups, ask, Fini, l.m, 0);
  }

  /** A run that failed has an error, and one without is complete. */
  lemma ResultOfRun(groups: seq<Group>, ask: seq<Event> -> Answer, body: seq<Event>, parsed: Outcome,
                    argEbadkey: bool, endIndex: bool)
    ensures var s := StagesOf(groups, ask, body, parsed, argEbadkey, endIndex);
            var o := FinalOf(groups, ask, parsed, argEbadkey, endIndex);
            (s.failed ==> o.err != 0) && (o.err == 0 ==> CompleteRun(groups, s, endIndex))
  {
    hide IdleOf, IdleTo, DownOf, DownTo, AllUp, AllDown;
    var o := ParsedOf(groups, ask, parsed, argEbadkey, endIndex);
    IdleAdds(groups, ask, parsed.m, |groups|);
    IdleFatal(groups, ask, parsed.m);
    DownAdds(groups, ask, End, IdleOf(groups, ask, parsed.m, |groups|), 0);
    DownAdds(groups, ask, Success, o, 0);
  }

  /** Once NO_ARGS was answered fatally, nobody hears of the end. */
  lemma IdleFatal(groups: seq<Group>, ask: seq<Event> -> Answer, m: Moment)
    ensures var o := IdleOf(groups, ask, m, |groups|);
            Fatal(o.err) ==> DownOf(groups, ask, End, o, 0) == o && DownTo(groups, ask, End, o, 0) == |groups|
  {
    var o := IdleOf(groups, ask, m, |groups|);
    if Fatal(o.err) {
      DownStops(groups, ask, End, o, 0, |groups|);
    }
  }

  lemma LastAdds(groups: seq<Group>, ask: seq<Event> -> Answer, o: Outcome)
    ensures LastOf(groups, ask, o).m.events == o.m.events +
            if o.err != 0 then CallsFor(groups, Error, Up(|groups|))
            else CallsFor(groups, Success, Down(|groups|, DownTo(groups, ask, Success, o, 0)))
  {
    hide DownOf, DownTo, AllUp, CallsFor, Up, Down;
    AllUpAdds(groups, ask, Error, o.m, |groups|);
    DownAdds(groups, ask, Success, o, 0);
  }

  lemma ParsedAdds(groups: seq<Group>, ask: seq<Event> -> Answer, body: seq<Event>, parsed: Outcome,
                   argEbadkey: bool, endIndex: bool)
    requires parsed.m.events == InitCalls(groups) + body
    ensures var s := StagesOf(groups, ask, body, parsed, argEbadkey, endIndex);
            ParsedOf(groups, ask, parsed, argEbadkey, endIndex).m.events
            == InitCalls(groups) + body + NoArgsCalls(groups, s) + EndCalls(groups, s)
  {
    hide IdleOf, IdleTo, DownOf, DownTo, CallsFor, IdleUp, Idle, Down, InitCalls;
    var m := parsed.m;
    var s := StagesOf(groups, ask, body, parsed, argEbadkey, endIndex);
    if s.idleTo == 0 && s.endFrom == |groups| {
      NoCalls(groups, s);
    }
    IdleAdds(groups, ask, m, |groups|);
    DownAdds(groups, ask, End, IdleOf(groups, ask, m, |groups|), 0);
    forall g ensures Idle(m.events, g) <==> Idle(body, g) {
      IdleInRun(groups, body, g);
    }
    SameIdle(m.events, body, s.idleTo);
  }

  lemma NoCalls(groups: seq<Group>, s: Stages)
    ensures s.idleTo == 0 ==> NoArgsCalls(groups, s) == []
    ensures s.endFrom == |groups| ==> EndCalls(groups, s) == []
  {
  }

  // ---------------------------------------------------------------------
  // The run itself

  /** struct parser, with the user's parsers and getopt as functions of what
      has happened so far.  `body` is the part of `events` since the end of
      initialisation and before that of the arguments. */
  class Parser {
    const tables: Tables
    const ask: seq<Event> -> Answer
    const getopt: (seq<Event>, nat) -> GetoptAnswer
    const argsProcessed: array<int>
    var tryGetopt: bool
    var p: Position
    var scans: nat
    var events: seq<Event>
    ghost var body: seq<Event>

    ghost predicate Valid()
      reads this`body, argsProcessed
    {
      && argsProcessed.Length == |tables.groups|
      && IsBody(tables.groups, body)
      && forall g :: 0 <= g < |tables.groups| ==> 0 <= argsProcessed[g] && (argsProcessed[g] == 0 <==> Idle(body, g))
    }

    /** Between initialisation and the end of the arguments. */
    ghost predicate Parsing()
      reads this`body, this`events, argsProcessed
    {
      Valid() && events == InitCalls(tables.groups) + body
    }

    function Now(): Moment
      reads this
    {
      Moment(p, tryGetopt, scans, events)
    }

    constructor (tables: Tables, argc: int, flags: Flags, ask: seq<Event> -> Answer,
                 getopt: (seq<Event>, nat) -> GetoptAnswer)
      ensures Valid() && events == [] && body == [] && this.tables == tables && fresh(argsProcessed)
    {
      this.tables, this.ask, this.getopt := tables, ask, getopt;
      argsProcessed := new int[|tables.groups|](_ => 0);
      tryGetopt := true;
      p := Position(0, argc, 0, flags);
      scans := 0;
      events, body := [], [];
    }

    /** group_parse */
    method GroupParse(g: nat, key: Key) returns (err: int)
      requires g < |tables.groups|
      modifies this`p, this`events
      ensures events == old(events) + if HasParser(tables.groups, g) then [Call(g, key)] else []
      ensures Outcome(Now(), err) == CallOf(tables.groups, ask, old(Now()), g, key)
    {
      if tables.groups[g].argp.hasParser {
        events := events + [Call(g, key)];
        var answer := ask(events);
        p := answer.position;
        return answer.err;
      }
      assert events + [] == events;
      return EBADKEY;
    }

    /** parser_init: the calls with ARGP_KEY_INIT. */
    method ParserInit() returns (err: int)
      requires Valid() && events == [] && body == []
      modifies this`p, this`events
      ensures Outcome(Now(), err) == StartOf(tables.groups, ask, old(Now()))
      ensures err == 0 ==> Parsing()
    {
      hide Valid, CallOf, CallsFor, Up;
      ghost var start := Now();
      err := 0;
      var g := 0;
      while g < |tables.groups| && (err == 0 || err == EBADKEY)
        invariant 0 <= g <= |tables.groups|
        invariant Outcome(Now(), err) == InitOf(tables.groups, ask, start, g)
      {
        err := GroupParse(g, Init);
        g := g + 1;
      }
      if err != 0 && err != EBADKEY {
        InitStops(tables.groups, ask, start, g, |tables.groups|);
        return err;
      }
      InitAdds(tables.groups, ask, start, g);
      err := 0;
      if p.flags.noErrs && p.flags.parseArgv0 {
        p := p.(argc := p.argc + 1);
      }
      assert [] + InitCalls(tables.groups) + [] == InitCalls(tables.groups);
    }

    /** A call while the arguments are being parsed. */
    method CallWhileParsing(g: nat, key: Key) returns (err: int)
      requires Parsing() && g < |tables.groups| && (key.Opt? || key.Arg? || key.Args?)
      modifies this`p, this`events, this`body
      ensures Parsing() && Outcome(Now(), err) == CallOf(tables.groups, ask, old(Now()), g, key)
    {
      ghost var added := if HasParser(tables.groups, g) then [Call(g, key)] else [];
      err := GroupParse(g, key);
      BodyGrows(tables.groups, body, added);
      Assoc(InitCalls(tables.groups), body, added);
      body := body + added;
    }

    /** parser_parse_arg: the arguments taken are credited to a group. */
    method CreditGroup(g: nat, count: nat)
      requires Parsing() && g < |tables.groups| && count > 0
      modifies this`events, this`body, argsProcessed
      ensures Parsing() && events == old(events) + [Credit(g, count)]
      ensures argsProcessed[g] == old(argsProcessed[g]) + count
      ensures forall h :: 0 <= h < |tables.groups| && h != g ==> argsProcessed[h] == old(argsProcessed[h])
    {
      ghost var before := body;
      argsProcessed[g] := argsProcessed[g] + count;
      events := events + [Credit(g, count)];
      Assoc(InitCalls(tables.groups), body, [Credit(g, count)]);
      body := body + [Credit(g, count)];
      CreditEndsIdle(before, g, count);
    }

    /** parser_parse_arg: the offers to the groups. */
    method OfferArg() returns (err: int, key: Key, g: nat)
      requires Parsing()
      modifies this`p, this`events, this`body
      ensures Parsing() && (err != EBADKEY ==> g < |tables.groups|)
      ensures var f := Offer(tables.groups, ask, old(Now()), 0);
              f.o == Outcome(Now(), err) && f.taker == g && (err != EBADKEY ==> f.key == key)
    {
      key, g, err := Arg, 0, EBADKEY;
      ghost var goal := Offer(tables.groups, ask, Now(), 0);
      while g < |tables.groups|
        invariant 0 <= g <= |tables.groups| && Parsing() && err == EBADKEY
        invariant Offer(tables.groups, ask, Now(), g) == goal
      {
        p := p.(next := p.next + 1);
        key := Arg;
        err := CallWhileParsing(g, key);
        if err != EBADKEY {
          return;
        }
        p := p.(next := p.next - 1);
        key := Args;
        err := CallWhileParsing(g, key);
        if err != EBADKEY {
          return;
        }
        g := g + 1;
      }
    }

    /** parser_parse_arg */
    method ParserParseArg() returns (err: int)
      requires Parsing()
      modifies this, argsProcessed
      ensures Parsing() && Outcome(Now(), err) == ArgOf(tables.groups, ask, old(Now()))
    {
      p := p.(next := p.next - 1);
      var index := p.next;
      var key, g;
      err, key, g := OfferArg();
      if err == 0 {
        if key == Args {
          p := p.(next := p.argc);
        }
        if p.next > index {
          CreditGroup(g, p.next - index);
        } else {
          tryGetopt := true;
        }
      }
    }

    /** parser_parse_opt */
    method ParserParseOpt(opt: int) returns (err: int)
      requires Parsing()
      modifies this`p, this`events, this`body
      ensures Parsing() && Outcome(Now(), err) == OptOf(tables, ask, old(Now()), opt)
    {
      var target := Dispatch(tables, opt);
      err := EBADKEY;
      if target.To? && 0 <= target.group < |tables.groups| {
        err := CallWhileParsing(target.group, Key.Opt(target.key));
      }
    }

    /** parser_parse_next, past getopt: the end, an argument or an option. */
    method TakeNext(found: int) returns (err: int, argEbadkey: bool)
      requires Parsing()
      modifies this, argsProcessed
      ensures Parsing()
      ensures var o := if found == KEY_ARG then ArgOf(tables.groups, ask, old(Now()))
                       else OptOf(tables, ask, old(Now()), found);
              (Outcome(Now(), err), argEbadkey) == if found == KEY_END then PlainNext(tables, ask, old(Now()))
                                                   else (o, found == KEY_ARG && o.err == EBADKEY)
    {
      hide ArgOf, OptOf, Parsing;
      var opt := found;
      argEbadkey := false;
      if opt == KEY_END {
        if p.next >= p.argc || p.flags.noArgs {
          return EBADKEY, true;
        }
        opt := KEY_ARG;
        p := p.(next := p.next + 1);
      }
      if opt == KEY_ARG {
        err := ParserParseArg();
      } else {
        err := ParserParseOpt(opt);
      }
      if err == EBADKEY {
        argEbadkey := opt == KEY_END || opt == KEY_ARG;
      }
    }

    /** parser_parse_next */
    method ParserParseNext() returns (err: int, argEbadkey: bool)
      requires Parsing()
      modifies this, argsProcessed
      ensures Parsing() && (Outcome(Now(), err), argEbadkey) == NextOf(tables, ask, getopt, old(Now()))
    {
      hide ArgOf, OptOf, PlainNext, Parsing;
      var opt := KEY_END;
      if p.quoted != 0 && p.next < p.quoted {
        p := p.(quoted := 0);
      }
      if tryGetopt && p.quoted == 0 {
        var answer := getopt(events, scans);
        scans := scans + 1;
        opt := answer.opt;
        p := p.(next := answer.optind);
        if opt == KEY_END {
          tryGetopt := false;
          if p.next > 1 && answer.afterQuote {
            p := p.(quoted := p.next);
          }
        } else if opt == KEY_ERR && answer.optopt != KEY_END {
          return EBADKEY, false;
        }
      }
      err, argEbadkey := TakeNext(opt);
    }

    /** parser_finalize: ARGP_KEY_NO_ARGS to the groups without arguments. */
    method CallIdle() returns (err: int)
      requires Parsing()
      modifies this`p, this`events
      ensures Valid() && Outcome(Now(), err) == IdleOf(tables.groups, ask, old(Now()), |tables.groups|)
    {
      hide Idle, CallOf, InitCalls, IsBody;
      ghost var start := Now();
      err := 0;
      var g := 0;
      while g < |tables.groups| && (err == 0 || err == EBADKEY)
        invariant 0 <= g <= |tables.groups|
        invariant Outcome(Now(), err) == IdleOf(tables.groups, ask, start, g)
      {
        IdleInRun(tables.groups, body, g);
        if argsProcessed[g] == 0 {
          err := GroupParse(g, NoArgs);
        }
        g := g + 1;
      }
      if Fatal(err) {
        IdleStops(tables.groups, ask, start, g, |tables.groups|);
      }
    }

    /** parser_finalize: calls from the last group back, until an error. */
    method CallDown(key: Key, start: int) returns (err: int)
      modifies this`p, this`events
      ensures Outcome(Now(), err) == DownOf(tables.groups, ask, key, Outcome(old(Now()), start), 0)
    {
      hide CallOf;
      ghost var o := Outcome(Now(), start);
      err := start;
      var g := |tables.groups|;
      while g > 0 && (err == 0 || err == EBADKEY)
        invariant 0 <= g <= |tables.groups|
        invariant Outcome(Now(), err) == DownOf(tables.groups, ask, key, o, g)
      {
        g := g - 1;
        err := GroupParse(g, key);
      }
      if Fatal(err) {
        DownStops(tables.groups, ask, key, o, 0, g);
      }
    }

    /** parser_finalize: ARGP_KEY_ERROR to every group. */
    method CallAllUp(key: Key)
      modifies this`p, this`events
      ensures Now() == AllUp(tables.groups, ask, key, old(Now()), |tables.groups|)
    {
      hide CallOf;
      var g := 0;
      while g < |tables.groups|
        invariant 0 <= g <= |tables.groups|
        invariant Now() == AllUp(tables.groups, ask, key, old(Now()), g)
      {
        var _ := GroupParse(g, key);
        g := g + 1;
      }
    }

    /** parser_finalize: ARGP_KEY_FINI to every group, errors ignored. */
    method CallAllDown(key: Key)
      modifies this`p, this`events
      ensures Now() == AllDown(tables.groups, ask, key, old(Now()), 0)
    {
      hide CallOf;
      var g := |tables.groups|;
      while g > 0
        invariant 0 <= g <= |tables.groups|
        invariant Now() == AllDown(tables.groups, ask, key, old(Now()), g)
      {
        g := g - 1;
        var _ := GroupParse(g, key);
      }
    }

    /** parser_finalize: the calls made when the parse has not failed. */
    method EndOfArguments(endIndex: bool) returns (err: int)
      requires Parsing()
      modifies this`p, this`events
      ensures Valid() && Outcome(Now(), err) == EndOf(tables.groups, ask, old(Now()), endIndex)
    {
      hide IdleOf, DownOf, Valid, InitCalls;
      err := 0;
      if p.next == p.argc {
        err := CallIdle();
        err := CallDown(End, err);
        if err == EBADKEY {
          err := 0;
        }
      } else if !endIndex {
        err := EBADKEY;
      }
    }

    /** parser_finalize */
    method ParserFinalize(parseErr: int, argEbadkey: bool, endIndex: bool) returns (result: int, ghost s: Stages)
      requires Parsing()
      modifies this`p, this`events
      ensures var parsed := Outcome(old(Now()), parseErr);
              && Outcome(Now(), result) == FinalOf(tables.groups, ask, parsed, argEbadkey, endIndex)
              && s == StagesOf(tables.groups, ask, body, parsed, argEbadkey, endIndex)
      ensures IsRun(tables.groups, events, s)
    {
      hide EndOf, DownOf, AllUp, AllDown, Valid, InitCalls, IsRun, IsBody, StagesOf;
      ghost var parsed := Outcome(Now(), parseErr);
      s := StagesOf(tables.groups, ask, body, parsed, argEbadkey, endIndex);
      assert IsBody(tables.groups, body) by {
        ParsingIs();
      }
      FinalIsRun(tables.groups, ask, body, parsed, argEbadkey, endIndex);
      var err := if parseErr == EBADKEY && argEbadkey then 0 else parseErr;
      if err == 0 {
        err := EndOfArguments(endIndex);
      }
      if err != 0 {
        CallAllUp(Error);
      } else {
        err := CallDown(Success, err);
        if err == EBADKEY {
          err := 0;
        }
      }
      CallAllDown(Fini);
      result := if err == EBADKEY then EINVAL else err;
    }

    lemma ParsingIs()
      requires Parsing()
      ensures IsBody(tables.groups, body)
    {
    }

    /** argp_parse, the loop cut off after `fuel` rounds. */
    method ArgpParse(endIndex: bool, fuel: nat)
        returns (result: int, started: bool, finished: bool, ghost s: Stages)
      requires Valid() && events == [] && body == []
      modifies this, argsProcessed
      ensures var o := StartOf(tables.groups, ask, old(Now()));
              var (parsed, argEbadkey) := RoundsOf(tables, ask, getopt, o.m, fuel);
              && (started <==> o.err == 0) && (finished <==> started && parsed.err != 0)
              && Outcome(Now(), result) == if !started then o else if !finished then parsed
                                           else FinalOf(tables.groups, ask, parsed, argEbadkey, endIndex)
      ensures finished ==> IsRun(tables.groups, events, s)
      ensures finished && s.failed ==> result != 0
      ensures finished && result == 0 ==> CompleteRun(tables.groups, s, endIndex)
      ensures started && !finished ==> events == InitCalls(tables.groups) + body && IsBody(tables.groups, body)
    {
      hide StartOf, NextOf, FinalOf, StagesOf, Valid, InitCalls, IsRun, CompleteRun, IsBody;
      started, finished := false, false;
      s := Stages([], 0, 0, false, 0);
      result := ParserInit();
      if result == 0 {
        started := true;
        var argEbadkey := false;
        var left: nat := fuel;
        ghost var start := Now();
        while result == 0 && left > 0
          invariant Parsing() && left <= fuel
          invariant RoundsOf(tables, ask, getopt, start, fuel)
                    == if result == 0 then RoundsOf(tables, ask, getopt, Now(), left)
                       else (Outcome(Now(), result), argEbadkey)
          decreases left
        {
          result, argEbadkey := ParserParseNext();
          left := left - 1;
        }
        ParsingIs();
        if result != 0 {
          ghost var parsed := Outcome(Now(), result);
          ResultOfRun(tables.groups, ask, body, parsed, argEbadkey, endIndex);
          result, s := ParserFinalize(result, argEbadkey, endIndex);
          finished := true;
        }
      }
    }
  }

  lemma BodyGrows(groups: seq<Group>, body: seq<Event>, added: seq<Event>)
    requires IsBody(groups, body) && IsBody(groups, added) && forall i :: 0 <= i < |added| ==> added[i].Call?
    ensures IsBody(groups, body + added)
    ensures forall g :: Idle(body + added, g) <==> Idle(body, g)
  {
    forall g ensures Idle(body + added, g) <==> Idle(body, g) {
      if Idle(body + added, g) {
        assert forall i :: 0 <= i < |body| ==> (body + added)[i] == body[i];
      }
    }
  }

  lemma CreditEndsIdle(body: seq<Event>, g: int, count: nat)
    ensures forall h :: Idle(body + [Credit(g, count)], h) <==> Idle(body, h) && h != g
  {
    var after := body + [Credit(g, count)];
    forall h ensures Idle(after, h) <==> Idle(body, h) && h != g {
      assert after[|body|] == Credit(g, count);
      if Idle(after, h) {
        assert forall i :: 0 <= i < |body| ==> after[i] == body[i];
      }
    }
  }
}
