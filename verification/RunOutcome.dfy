/** What decides the result of argp_parse, and which parsers never hear
    whether it succeeded. */
module RunOutcome {
  import opened FirstSeen
  import opened ParserTables
  import opened ArgpRun
  import opened RunProtocol

  /** Calls whose fatal answer ends the parse with an error. */
  predicate Decides(e: Event) {
    e.Call? && (e.key.NoArgs? || e.key.End? || e.key.Success?)
  }

  /** No deciding call from position `a` on is answered fatally. */
  predicate Fine(ask: seq<Event> -> Answer, events: seq<Event>, a: nat) {
    forall j :: a <= j < |events| && Decides(events[j]) ==> !Fatal(ask(events[..j + 1]).err)
  }

  lemma FineAppend(ask: seq<Event> -> Answer, events: seq<Event>, more: seq<Event>, a: nat)
    requires a <= |events|
    ensures Fine(ask, events + more, a) <==> Fine(ask, events, a) && Fine(ask, events + more, |events|)
  {
    var all := events + more;
    assert forall j :: 0 <= j < |events| ==> all[j] == events[j] && all[..j + 1] == events[..j + 1];
  }

  lemma FineOne(ask: seq<Event> -> Answer, events: seq<Event>, e: Event)
    ensures Fine(ask, events + [e], |events|) <==> Decides(e) ==> !Fatal(ask(events + [e]).err)
  {
    var all := events + [e];
    assert all[..|events| + 1] == all && all[|events|] == e;
  }

  lemma NothingNew(ask: seq<Event> -> Answer, events: seq<Event>)
    ensures Fine(ask, events, |events|)
  {
  }

  /** One more call. */
  lemma FineCall(groups: seq<Group>, ask: seq<Event> -> Answer, m: Moment, g: int, key: Key, a: nat)
    requires a <= |m.events|
    ensures var o := CallOf(groups, ask, m, g, key);
            && a <= |o.m.events|
            && (Decides(Call(g, key)) ==> (Fine(ask, o.m.events, a) <==> Fine(ask, m.events, a) && !Fatal(o.err)))
            && (!Decides(Call(g, key)) ==> (Fine(ask, o.m.events, a) <==> Fine(ask, m.events, a)))
  {
    FineOne(ask, m.events, Call(g, key));
    FineAppend(ask, m.events, [Call(g, key)], a);
    hide Fine;
  }

  lemma {:induction false} IdleFine(groups: seq<Group>, ask: seq<Event> -> Answer, m: Moment, n: nat)
    ensures var o := IdleOf(groups, ask, m, n);
            |m.events| <= |o.m.events| && (Fine(ask, o.m.events, |m.events|) <==> !Fatal(o.err))
  {
    hide Fine, CallOf, Idle;
    if n == 0 {
      NothingNew(ask, m.events);
    } else {
      IdleFine(groups, ask, m, n - 1);
      FineCall(groups, ask, IdleOf(groups, ask, m, n - 1).m, n - 1, NoArgs, |m.events|);
    }
  }

  lemma {:induction false} DownFine(groups: seq<Group>, ask: seq<Event> -> Answer, key: Key, start: Outcome,
                                    i: nat, a: nat)
    requires a <= |start.m.events| && (Fine(ask, start.m.events, a) <==> !Fatal(start.err))
    requires key.End? || key.Success?
    ensures var o := DownOf(groups, ask, key, start, i);
            a <= |o.m.events| && (Fine(ask, o.m.events, a) <==> !Fatal(o.err))
    decreases |groups| - i
  {
    hide Fine, CallOf;
    if i < |groups| {
      DownFine(groups, ask, key, start, i + 1, a);
      FineCall(groups, ask, DownOf(groups, ask, key, start, i + 1).m, i, key, a);
    }
  }

  lemma {:induction false} AllDownFine(groups: seq<Group>, ask: seq<Event> -> Answer, m: Moment, i: nat, a: nat)
    requires a <= |m.events|
    ensures var o := AllDown(groups, ask, Fini, m, i);
            a <= |o.events| && (Fine(ask, o.events, a) <==> Fine(ask, m.events, a))
    decreases |groups| - i
  {
    hide Fine, CallOf;
    if i < |groups| {
      AllDownFine(groups, ask, m, i + 1, a);
      FineCall(groups, ask, AllDown(groups, ask, Fini, m, i + 1), i, Fini, a);
    }
  }

  lemma {:induction false} AllUpFine(groups: seq<Group>, ask: seq<Event> -> Answer, m: Moment, n: nat, a: nat)
    requires a <= |m.events|
    ensures var o := AllUp(groups, ask, Error, m, n);
            a <= |o.events| && (Fine(ask, o.events, a) <==> Fine(ask, m.events, a))
  {
    hide Fine, CallOf;
    if n > 0 {
      AllUpFine(groups, ask, m, n - 1, a);
      FineCall(groups, ask, AllUp(groups, ask, Error, m, n - 1), n - 1, Error, a);
    }
  }

  /** argp_parse returns 0 exactly when the arguments were parsed, or left at
      one that nobody takes, all of them were consumed or the caller wants to
      know where they end, and nobody answered NO_ARGS, END or SUCCESS with an
      error other than EBADKEY. */
  lemma SucceedsIff(groups: seq<Group>, ask: seq<Event> -> Answer, parsed: Outcome, argEbadkey: bool, endIndex: bool)
    ensures var o := FinalOf(groups, ask, parsed, argEbadkey, endIndex);
            && |parsed.m.events| <= |o.m.events|
            && (o.err == 0 <==>
                && (parsed.err == 0 || (parsed.err == EBADKEY && argEbadkey))
                && (parsed.m.p.next == parsed.m.p.argc || endIndex)
                && Fine(ask, o.m.events, |parsed.m.events|))
  {
    hide Fine, IdleOf, DownOf, AllUp, AllDown;
    var m, a := parsed.m, |parsed.m.events|;
    var idle := IdleOf(groups, ask, m, |groups|);
    IdleFine(groups, ask, m, |groups|);
    DownFine(groups, ask, End, idle, 0, a);
    NothingNew(ask, m.events);
    var o := ParsedOf(groups, ask, parsed, argEbadkey, endIndex);
    if o.err == 0 {
      DownFine(groups, ask, Success, o, 0, a);
    } else {
      AllUpFine(groups, ask, o.m, |groups|, a);
    }
    AllDownFine(groups, ask, LastOf(groups, ask, o).m, 0, a);
  }

  /** The last event is a deciding call, and its answer the error. */
  predicate LastFailed(ask: seq<Event> -> Answer, o: Outcome, a: nat) {
    var n := |o.m.events|;
    n > a && Decides(o.m.events[n - 1]) && ask(o.m.events).err == o.err
  }

  lemma {:induction false} IdleFails(groups: seq<Group>, ask: seq<Event> -> Answer, m: Moment, n: nat)
    requires Fatal(IdleOf(groups, ask, m, n).err)
    ensures LastFailed(ask, IdleOf(groups, ask, m, n), |m.events|)
  {
    hide Idle;
    if n > 0 {
      var before := IdleOf(groups, ask, m, n - 1);
      if Fatal(before.err) {
        IdleFails(groups, ask, m, n - 1);
      } else {
        IdleFine(groups, ask, m, n - 1);
      }
    }
  }

  lemma FailedEarlier(ask: seq<Event> -> Answer, o: Outcome, a: nat, more: seq<Event>)
    requires LastFailed(ask, o, a)
    ensures var events := o.m.events + more;
            exists j :: a <= j < |events| && Decides(events[j]) && ask(events[..j + 1]).err == o.err
  {
    var events, j := o.m.events + more, |o.m.events| - 1;
    assert events[..j + 1] == o.m.events;
    assert Decides(events[j]);
  }

  /** What argp_parse returns when it fails: what parsing failed with, EINVAL
      in place of EBADKEY or for arguments left over, or else the answer of
      some parser to NO_ARGS, END or SUCCESS. */
  lemma ErrorIs(groups: seq<Group>, ask: seq<Event> -> Answer, parsed: Outcome, argEbadkey: bool, endIndex: bool)
    ensures var o := FinalOf(groups, ask, parsed, argEbadkey, endIndex);
            var ok := parsed.err == 0 || (parsed.err == 7 && argEbadkey);
            var consumed := parsed.m.p.next == parsed.m.p.argc;
            && (!ok ==> o.err == if parsed.err == 7 then 22 else parsed.err)
            && (ok && !consumed && !endIndex ==> o.err == 22)
            && (ok && (consumed || endIndex) && o.err != 0 ==>
                  exists j :: |parsed.m.events| <= j < |o.m.events| && Decides(o.m.events[j])
                              && ask(o.m.events[..j + 1]).err == o.err)
  {
    hide IdleOf, DownOf, AllUp, AllDown, Decides, CallsFor;
    var m, a := parsed.m, |parsed.m.events|;
    var o := ParsedOf(groups, ask, parsed, argEbadkey, endIndex);
    var l := LastOf(groups, ask, o);
    var final := FinalOf(groups, ask, parsed, argEbadkey, endIndex);
    AllDownAdds(groups, ask, Fini, l.m, 0);
    var fini := CallsFor(groups, Fini, Down(|groups|, 0));
    if (parsed.err == 0 || (parsed.err == 7 && argEbadkey)) && (m.p.next == m.p.argc || endIndex) && final.err != 0 {
      if o.err == 0 {
        SuccessFailed(groups, ask, o);
        ParsedGrows(groups, ask, parsed, argEbadkey, endIndex);
        FailedEarlier(ask, DownOf(groups, ask, Success, o, 0), |o.m.events|, fini);
      } else {
        EndFailed(groups, ask, m);
        AllUpAdds(groups, ask, Error, o.m, |groups|);
        var errors := CallsFor(groups, Error, Up(|groups|));
        FailedEarlier(ask, o, a, errors + fini);
        Assoc(o.m.events, errors, fini);
      }
    }
  }

  lemma ParsedGrows(groups: seq<Group>, ask: seq<Event> -> Answer, parsed: Outcome, argEbadkey: bool, endIndex: bool)
    ensures |parsed.m.events| <= |ParsedOf(groups, ask, parsed, argEbadkey, endIndex).m.events|
  {
    hide IdleOf, DownOf;
    var idle := IdleOf(groups, ask, parsed.m, |groups|);
    IdleAdds(groups, ask, parsed.m, |groups|);
    DownAdds(groups, ask, End, idle, 0);
  }

  lemma SuccessFailed(groups: seq<Group>, ask: seq<Event> -> Answer, o: Outcome)
    requires o.err == 0 && Fatal(DownOf(groups, ask, Success, o, 0).err)
    ensures LastFailed(ask, DownOf(groups, ask, Success, o, 0), |o.m.events|)
  {
    hide DownOf, DownTo;
    DownFails(groups, ask, Success, o, 0);
  }

  lemma EndFailed(groups: seq<Group>, ask: seq<Event> -> Answer, m: Moment)
    ensures var o := DownOf(groups, ask, End, IdleOf(groups, ask, m, |groups|), 0);
            Fatal(o.err) ==> LastFailed(ask, o, |m.events|)
  {
    hide IdleOf, DownOf, DownTo;
    var idle := IdleOf(groups, ask, m, |groups|);
    if Fatal(idle.err) {
      IdleFails(groups, ask, m, |groups|);
      IdleFatal(groups, ask, m);
    } else if Fatal(DownOf(groups, ask, End, idle, 0).err) {
      IdleFine(groups, ask, m, |groups|);
      DownFails(groups, ask, End, idle, 0);
    }
  }

  // ---------------------------------------------------------------------
  // Who hears of the end

  /** Group `h` answered SUCCESS, its call being number `i`, with an error. */
  predicate FailsSuccess(ask: seq<Event> -> Answer, events: seq<Event>, h: int, i: int) {
    0 <= i < |events| && events[i] == Call(h, Success) && Fatal(ask(events[..i + 1]).err)
  }

  /** Group `g` is told neither of an error nor of success. */
  predicate NeverTold(events: seq<Event>, g: int) {
    Call(g, Error) !in events && Call(g, Success) !in events
  }

  /** The answers to calls made from the last group back. */
  lemma {:induction false} DownAnswers(groups: seq<Group>, ask: seq<Event> -> Answer, key: Key, start: Outcome,
                                       i: nat, j: nat)
    requires !Fatal(start.err) && |start.m.events| <= j < |DownOf(groups, ask, key, start, i).m.events|
    ensures var o := DownOf(groups, ask, key, start, i);
            && o.m.events[j].Call?
            && (Fatal(ask(o.m.events[..j + 1]).err) ==>
                  Fatal(o.err) && o.m.events[j].group == DownTo(groups, ask, key, start, i))
    decreases |groups| - i
  {
    if i < |groups| {
      var before := DownOf(groups, ask, key, start, i + 1);
      if Fatal(before.err) {
        DownAnswers(groups, ask, key, start, i + 1, j);
      } else {
        var o := CallOf(groups, ask, before.m, i, key);
        CallAdds(groups, ask, before.m, i, key);
        if j < |before.m.events| {
          DownAnswers(groups, ask, key, start, i + 1, j);
          assert o.m.events[..j + 1] == before.m.events[..j + 1];
        } else {
          assert o.m.events[..j + 1] == o.m.events;
        }
      }
    }
  }

  /** Where calls made from the last group back end. */
  lemma {:induction false} DownFails(groups: seq<Group>, ask: seq<Event> -> Answer, key: Key, start: Outcome, i: nat)
    requires !Fatal(start.err) && Fatal(DownOf(groups, ask, key, start, i).err)
    ensures var o := DownOf(groups, ask, key, start, i);
            && |o.m.events| > |start.m.events| && ask(o.m.events).err == o.err
            && o.m.events[|o.m.events| - 1] == Call(DownTo(groups, ask, key, start, i), key)
    decreases |groups| - i
  {
    if i < |groups| {
      var before := DownOf(groups, ask, key, start, i + 1);
      DownAdds(groups, ask, key, start, i + 1);
      if Fatal(before.err) {
        DownFails(groups, ask, key, start, i + 1);
      } else {
        CallAdds(groups, ask, before.m, i, key);
      }
    }
  }

  lemma {:induction false} CallsInclude(groups: seq<Group>, key: Key, order: seq<int>, g: int)
    requires g in order && HasParser(groups, g)
    ensures Call(g, key) in CallsFor(groups, key, order)
    decreases |order|
  {
    var init, last := order[..|order| - 1], order[|order| - 1];
    assert order == init + [last];
    if g != last {
      CallsInclude(groups, key, init, g);
    }
  }

  lemma DownIncludes(n: nat, from: nat, g: nat)
    requires g < n && from <= n
    ensures g in Down(n, from) <==> from <= g
  {
    DownDescends(n, from);
    if from <= g {
      assert Down(n, from)[n - 1 - g] == g;
    }
  }

  lemma UpIncludes(n: nat, g: nat)
    requires g < n
    ensures g in Up(n)
  {
    UpAscends(n);
    assert Up(n)[g] == g;
  }

  /** Who is told, by how far the last round of calls got. */
  lemma ToldIff(groups: seq<Group>, events: seq<Event>, s: Stages, g: nat)
    requires IsRun(groups, events, s) && HasParser(groups, g) && s.successFrom <= |groups|
    ensures NeverTold(events, g) <==> !s.failed && g < s.successFrom
  {
    hide CallsFor, Up, Down, IsBody, InitCalls, NoArgsCalls, EndCalls, FiniCalls;
    var n := |groups|;
    UpIncludes(n, g);
    DownIncludes(n, s.successFrom, g);
    if s.failed {
      CallsInclude(groups, Error, Up(n), g);
      InLastPart(groups, s, Call(g, Error));
    } else if s.successFrom <= g {
      CallsInclude(groups, Success, Down(n, s.successFrom), g);
      InLastPart(groups, s, Call(g, Success));
    } else if !NeverTold(events, g) {
      var key := if Call(g, Error) in events then Error else Success;
      var i :| 0 <= i < |events| && events[i] == Call(g, key);
      WhereCalled(groups, events, s, i);
      var k := i - (|InitCalls(groups)| + |s.body| + |NoArgsCalls(groups, s)| + |EndCalls(groups, s)|);
      CallsAreOf(groups, Success, Down(n, s.successFrom), k);
    }
  }

  lemma InLastPart(groups: seq<Group>, s: Stages, e: Event)
    requires e in LastCalls(groups, s)
    ensures e in RunOf(groups, s)
  {
    hide InitCalls, NoArgsCalls, EndCalls, LastCalls, FiniCalls;
  }

  /** In a run past initialisation a group with a parser is told neither of an
      error nor of success exactly when a later group answered SUCCESS with an
      error other than EBADKEY. */
  lemma NeverToldIff(groups: seq<Group>, ask: seq<Event> -> Answer, body: seq<Event>, parsed: Outcome,
                     argEbadkey: bool, endIndex: bool, g: nat)
    requires parsed.m.events == InitCalls(groups) + body && IsBody(groups, body) && HasParser(groups, g)
    ensures var events := FinalOf(groups, ask, parsed, argEbadkey, endIndex).m.events;
            NeverTold(events, g) <==> exists h, i :: g < h && FailsSuccess(ask, events, h, i)
  {
    hide IsRun, FinalOf, StagesOf, InitCalls, IsBody, FailsSuccess, NeverTold, DownOf, DownTo;
    var events := FinalOf(groups, ask, parsed, argEbadkey, endIndex).m.events;
    var s := StagesOf(groups, ask, body, parsed, argEbadkey, endIndex);
    FinalIsRun(groups, ask, body, parsed, argEbadkey, endIndex);
    StagesBound(groups, ask, body, parsed, argEbadkey, endIndex);
    ToldIff(groups, events, s, g);
    if !s.failed && g < s.successFrom {
      SuccessFails(groups, ask, body, parsed, argEbadkey, endIndex);
    }
    forall h, i | g < h && FailsSuccess(ask, events, h, i) ensures !s.failed && h == s.successFrom {
      OnlyLastFails(groups, ask, body, parsed, argEbadkey, endIndex, h, i);
    }
  }

  lemma StagesBound(groups: seq<Group>, ask: seq<Event> -> Answer, body: seq<Event>, parsed: Outcome,
                    argEbadkey: bool, endIndex: bool)
    ensures var s := StagesOf(groups, ask, body, parsed, argEbadkey, endIndex);
            var o := ParsedOf(groups, ask, parsed, argEbadkey, endIndex);
            && s.successFrom <= |groups| && (s.failed <==> o.err != 0)
            && (!s.failed ==> s.successFrom == DownTo(groups, ask, Success, o, 0))
  {
    hide IdleOf, IdleTo, DownOf, DownTo, EndOf;
  }

  /** The events of a run that has not failed, up to its last success. */
  lemma UpToSuccess(groups: seq<Group>, ask: seq<Event> -> Answer, parsed: Outcome, argEbadkey: bool, endIndex: bool)
    requires ParsedOf(groups, ask, parsed, argEbadkey, endIndex).err == 0
    ensures FinalOf(groups, ask, parsed, argEbadkey, endIndex).m.events
            == DownOf(groups, ask, Success, ParsedOf(groups, ask, parsed, argEbadkey, endIndex), 0).m.events
               + FiniCalls(groups)
  {
    hide DownOf, AllDown, ParsedOf, CallsFor;
    var o := ParsedOf(groups, ask, parsed, argEbadkey, endIndex);
    AllDownAdds(groups, ask, Fini, DownOf(groups, ask, Success, o, 0).m, 0);
  }

  lemma SuccessFails(groups: seq<Group>, ask: seq<Event> -> Answer, body: seq<Event>, parsed: Outcome,
                     argEbadkey: bool, endIndex: bool)
    requires var s := StagesOf(groups, ask, body, parsed, argEbadkey, endIndex); !s.failed && s.successFrom > 0
    ensures var events := FinalOf(groups, ask, parsed, argEbadkey, endIndex).m.events;
            var s := StagesOf(groups, ask, body, parsed, argEbadkey, endIndex);
            exists i :: FailsSuccess(ask, events, s.successFrom, i)
  {
    hide FinalOf, StagesOf, ParsedOf, DownOf, DownTo, FiniCalls;
    var o := ParsedOf(groups, ask, parsed, argEbadkey, endIndex);
    var d := DownOf(groups, ask, Success, o, 0);
    var events := FinalOf(groups, ask, parsed, argEbadkey, endIndex).m.events;
    StagesBound(groups, ask, body, parsed, argEbadkey, endIndex);
    UpToSuccess(groups, ask, parsed, argEbadkey, endIndex);
    DownAdds(groups, ask, Success, o, 0);
    DownFails(groups, ask, Success, o, 0);
    var i := |d.m.events| - 1;
    assert events[..i + 1] == d.m.events;
    assert FailsSuccess(ask, events, DownTo(groups, ask, Success, o, 0), i);
  }

  lemma OnlyLastFails(groups: seq<Group>, ask: seq<Event> -> Answer, body: seq<Event>, parsed: Outcome,
                      argEbadkey: bool, endIndex: bool, h: int, i: int)
    requires parsed.m.events == InitCalls(groups) + body && IsBody(groups, body)
    requires FailsSuccess(ask, FinalOf(groups, ask, parsed, argEbadkey, endIndex).m.events, h, i)
    ensures var s := StagesOf(groups, ask, body, parsed, argEbadkey, endIndex);
            !s.failed && h == s.successFrom
  {
    hide FinalOf, StagesOf, ParsedOf, DownOf, DownTo, InitCalls, IsBody, NoArgsCalls, EndCalls, FiniCalls;
    var events := FinalOf(groups, ask, parsed, argEbadkey, endIndex).m.events;
    var s := StagesOf(groups, ask, body, parsed, argEbadkey, endIndex);
    var o := ParsedOf(groups, ask, parsed, argEbadkey, endIndex);
    FinalIsRun(groups, ask, body, parsed, argEbadkey, endIndex);
    ParsedAdds(groups, ask, body, parsed, argEbadkey, endIndex);
    StagesBound(groups, ask, body, parsed, argEbadkey, endIndex);
    WhereCalled(groups, events, s, i);
    UpToSuccess(groups, ask, parsed, argEbadkey, endIndex);
    DownAdds(groups, ask, Success, o, 0);
    var d := DownOf(groups, ask, Success, o, 0);
    assert events[..i + 1] == d.m.events[..i + 1];
    DownAnswers(groups, ask, Success, o, 0, i);
  }

  // ---------------------------------------------------------------------
  // Such a run

  const Nowhere := Position(0, 0, 0, Flags(false, false, false))

  /** Answers of parsers of which the second fails on success. */
  function FailingLast(events: seq<Event>): Answer {
    Answer(if events != [] && events[|events| - 1] == Call(1, Success) then 1 else 0, Nowhere)
  }

  predicate AtRest(o: Outcome) {
    o.err == 0 && o.m.p == Nowhere
  }

  lemma {:induction false} EndsAtRest(groups: seq<Group>, m: Moment, start: Outcome, n: nat, i: nat)
    requires n <= |groups| && (forall g :: 0 <= g < |groups| ==> groups[g].argp.hasParser)
    requires AtRest(Outcome(m, 0)) && AtRest(start)
    ensures AtRest(IdleOf(groups, FailingLast, m, n)) && AtRest(DownOf(groups, FailingLast, End, start, i))
    decreases n + if i < |groups| then |groups| - i else 0
  {
    hide Idle;
    if n > 0 {
      EndsAtRest(groups, m, start, n - 1, i);
    } else if i < |groups| {
      EndsAtRest(groups, m, start, n, i + 1);
    }
  }

  /** A run without arguments over two groups: the second answers SUCCESS with
      an error, argp_parse returns it, and the first group is never told. */
  lemma FirstGroupNeverTold(groups: seq<Group>)
    requires |groups| == 2 && groups[0].argp.hasParser && groups[1].argp.hasParser
    ensures var m := Moment(Nowhere, true, 0, InitCalls(groups));
            var o := FinalOf(groups, FailingLast, Outcome(m, EBADKEY), true, false);
            o.err == 1 && NeverTold(o.m.events, 0)
  {
    var m := Moment(Nowhere, true, 0, InitCalls(groups));
    var parsed := Outcome(m, EBADKEY);
    var idle := IdleOf(groups, FailingLast, m, 2);
    EndsAtRest(groups, m, Outcome(m, 0), 2, 2);
    EndsAtRest(groups, m, idle, 0, 0);
    assert m.events + [] == m.events;
    FinalIsRun(groups, FailingLast, [], parsed, true, false);
    StagesBound(groups, FailingLast, [], parsed, true, false);
    ToldIff(groups, FinalOf(groups, FailingLast, parsed, true, false).m.events,
            StagesOf(groups, FailingLast, [], parsed, true, false), 0);
    hide IdleOf, InitCalls, IsRun, AllDown, NeverTold, StagesOf;
    var o := ParsedOf(groups, FailingLast, parsed, true, false);
    assert AtRest(o);
    hide ParsedOf;
    assert DownOf(groups, FailingLast, Success, o, 2) == o;
    assert Fatal(DownOf(groups, FailingLast, Success, o, 1).err);
  }
}
