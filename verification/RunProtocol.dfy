/** What every completed run of argp_parse looks like to each parser. */
module RunProtocol {
  import opened ArgpOptions
  import opened ParserTables
  import opened ArgpRun

  // ---------------------------------------------------------------------
  // The protocol of one parser, as an automaton

  /** INIT (opt | ARG | ARGS)* NO_ARGS? END? (ERROR | SUCCESS)? FINI */
  datatype Phase = Start | Parsing | NoArgsSeen | EndSeen | LastSeen | Done | Broken

  function Step(phase: Phase, key: Key): Phase {
    match key
    case Init => if phase.Start? then Parsing else Broken
    case Opt(_) => if phase.Parsing? then Parsing else Broken
    case Arg => if phase.Parsing? then Parsing else Broken
    case Args => if phase.Parsing? then Parsing else Broken
    case NoArgs => if phase.Parsing? then NoArgsSeen else Broken
    case End => if phase.Parsing? || phase.NoArgsSeen? then EndSeen else Broken
    case Error => if phase.Parsing? || phase.NoArgsSeen? || phase.EndSeen? then LastSeen else Broken
    case Success => if phase.Parsing? || phase.NoArgsSeen? || phase.EndSeen? then LastSeen else Broken
    case Fini => if phase.Start? || phase.Done? || phase.Broken? then Broken else Done
  }

  /** Where the calls of group `g` among the events lead. */
  function After(events: seq<Event>, g: int, phase: Phase): Phase {
    if events == [] then phase
    else
      var before, e := After(events[..|events| - 1], g, phase), events[|events| - 1];
      if e.Call? && e.group == g then Step(before, e.key) else before
  }

  lemma {:induction false} AfterAppend(a: seq<Event>, b: seq<Event>, g: int, phase: Phase)
    ensures After(a + b, g, phase) == After(b, g, After(a, g, phase))
    decreases |b|
  {
    if b == [] {
      assert a + b == a;
    } else {
      assert (a + b)[..|a + b| - 1] == a + b[..|b| - 1];
      AfterAppend(a, b[..|b| - 1], g, phase);
    }
  }

  lemma AfterOne(e: Event, g: int, phase: Phase)
    ensures After([e], g, phase) == if e.Call? && e.group == g then Step(phase, e.key) else phase
  {
    assert [e][..0] == [];
  }

  predicate Distinct(order: seq<int>) {
    forall i, j :: 0 <= i < j < |order| ==> order[i] != order[j]
  }

  lemma {:induction false} AfterCalls(groups: seq<Group>, key: Key, order: seq<int>, g: int, phase: Phase)
    requires Distinct(order)
    ensures After(CallsFor(groups, key, order), g, phase)
            == if g in order && HasParser(groups, g) then Step(phase, key) else phase
    decreases |order|
  {
    if order != [] {
      var init, last := order[..|order| - 1], order[|order| - 1];
      var calls := if HasParser(groups, last) then [Call(last, key)] else [];
      assert CallsFor(groups, key, order) == CallsFor(groups, key, init) + calls;
      assert order == init + [last] && last !in init;
      AfterOne(Call(last, key), g, After(CallsFor(groups, key, init), g, phase));
      assert After([], g, After(CallsFor(groups, key, init), g, phase)) == After(CallsFor(groups, key, init), g, phase);
      hide After, Step, CallsFor;
      AfterCalls(groups, key, init, g, phase);
      AfterAppend(CallsFor(groups, key, init), calls, g, phase);
    }
  }

  lemma {:induction false} AfterBody(groups: seq<Group>, body: seq<Event>, g: int)
    requires IsBody(groups, body)
    ensures After(body, g, Parsing) == Parsing
    decreases |body|
  {
    if body != [] {
      AfterBody(groups, body[..|body| - 1], g);
    }
  }

  lemma {:induction false} UpAscends(n: nat)
    ensures |Up(n)| == n && forall i :: 0 <= i < n ==> Up(n)[i] == i
  {
    if n > 0 {
      UpAscends(n - 1);
    }
  }

  lemma {:induction false} DownDescends(n: nat, i: nat)
    ensures |Down(n, i)| == if i < n then n - i else 0
    ensures forall j :: 0 <= j < |Down(n, i)| ==> Down(n, i)[j] == n - 1 - j
    decreases n - i
  {
    if i < n {
      DownDescends(n, i + 1);
    }
  }

  lemma {:induction false} IdleUpAscends(body: seq<Event>, n: nat)
    ensures forall i :: 0 <= i < |IdleUp(body, n)| ==> 0 <= IdleUp(body, n)[i] < n && Idle(body, IdleUp(body, n)[i])
    ensures forall i, j :: 0 <= i < j < |IdleUp(body, n)| ==> IdleUp(body, n)[i] < IdleUp(body, n)[j]
  {
    if n > 0 {
      hide Idle;
      IdleUpAscends(body, n - 1);
    }
  }

  /** Each parser sees its keys in the documented order, whatever the parsers
      and getopt do. */
  lemma EveryParserSeesProtocol(groups: seq<Group>, events: seq<Event>, s: Stages, g: int)
    requires IsRun(groups, events, s) && HasParser(groups, g)
    ensures After(events, g, Start) == Done
  {
    hide After, CallsFor, Up, Down, IdleUp, Idle, IsBody;
    var n := |groups|;
    OrdersAreDistinct(n, s, g);
    AfterRun(groups, s, g);
    AfterCalls(groups, Init, Up(n), g, Start);
    AfterBody(groups, s.body, g);
    AfterCalls(groups, NoArgs, IdleUp(s.body, s.idleTo), g, Parsing);
    var a1 := After(NoArgsCalls(groups, s), g, Parsing);
    AfterCalls(groups, End, Down(n, s.endFrom), g, a1);
    var a2 := After(EndCalls(groups, s), g, a1);
    AfterCalls(groups, Error, Up(n), g, a2);
    AfterCalls(groups, Success, Down(n, s.successFrom), g, a2);
    AfterCalls(groups, Fini, Down(n, 0), g, After(LastCalls(groups, s), g, a2));
  }

  lemma OrdersAreDistinct(n: nat, s: Stages, g: int)
    requires 0 <= g < n
    ensures Distinct(Up(n)) && g in Up(n) && Distinct(Down(n, 0)) && g in Down(n, 0)
    ensures Distinct(Down(n, s.endFrom)) && Distinct(Down(n, s.successFrom)) && Distinct(IdleUp(s.body, s.idleTo))
  {
    UpAscends(n);
    assert g == Up(n)[g];
    DownDescends(n, 0);
    assert g == Down(n, 0)[n - 1 - g];
    DownDescends(n, s.endFrom);
    DownDescends(n, s.successFrom);
    IdleUpAscends(s.body, s.idleTo);
  }

  lemma AfterRun(groups: seq<Group>, s: Stages, g: int)
    ensures After(RunOf(groups, s), g, Start)
            == After(FiniCalls(groups), g, After(LastCalls(groups, s), g, After(EndCalls(groups, s), g,
                 After(NoArgsCalls(groups, s), g, After(s.body, g, After(InitCalls(groups), g, Start))))))
  {
    hide After, InitCalls, NoArgsCalls, EndCalls, LastCalls, FiniCalls;
    var e1 := InitCalls(groups) + s.body;
    var e2 := e1 + NoArgsCalls(groups, s);
    var e3 := e2 + EndCalls(groups, s);
    var e4 := e3 + LastCalls(groups, s);
    AfterAppend(InitCalls(groups), s.body, g, Start);
    AfterAppend(e1, NoArgsCalls(groups, s), g, Start);
    AfterAppend(e2, EndCalls(groups, s), g, Start);
    AfterAppend(e3, LastCalls(groups, s), g, Start);
    AfterAppend(e4, FiniCalls(groups), g, Start);
  }

  // ---------------------------------------------------------------------
  // Order between parsers

  lemma {:induction false} CallsAreOf(groups: seq<Group>, key: Key, order: seq<int>, i: nat)
    requires i < |CallsFor(groups, key, order)|
    ensures var e := CallsFor(groups, key, order)[i]; e.Call? && e.key == key && e.group in order
    decreases |order|
  {
    var init := order[..|order| - 1];
    assert order == init + [order[|order| - 1]];
    if i < |CallsFor(groups, key, init)| {
      CallsAreOf(groups, key, init, i);
    }
  }

  /** Calls in an ascending (sign 1) or descending (sign -1) order keep it. */
  lemma {:induction false} CallsKeepOrder(groups: seq<Group>, key: Key, order: seq<int>, sign: int, i: nat, j: nat)
    requires forall k, l :: 0 <= k < l < |order| ==> sign * order[k] < sign * order[l]
    requires i < j < |CallsFor(groups, key, order)|
    ensures sign * CallsFor(groups, key, order)[i].group < sign * CallsFor(groups, key, order)[j].group
    decreases |order|
  {
    var init, last := order[..|order| - 1], order[|order| - 1];
    var calls := CallsFor(groups, key, init);
    CallsAreOf(groups, key, order, i);
    CallsAreOf(groups, key, order, j);
    if j < |calls| {
      CallsKeepOrder(groups, key, init, sign, i, j);
    } else {
      CallsAreOf(groups, key, init, i);
      var k :| 0 <= k < |init| && init[k] == calls[i].group;
      assert order[k] == init[k];
    }
  }

  /** In which part of a run a call with a given key stands. */
  lemma WhereCalled(groups: seq<Group>, events: seq<Event>, s: Stages, i: nat)
    requires IsRun(groups, events, s) && i < |events| && events[i].Call?
    ensures var o1 := |InitCalls(groups)|;
            var o2 := o1 + |s.body|;
            var o3 := o2 + |NoArgsCalls(groups, s)|;
            var o4 := o3 + |EndCalls(groups, s)|;
            var o5 := o4 + |LastCalls(groups, s)|;
            match events[i].key
            case Init => i < o1 && events[i] == InitCalls(groups)[i]
            case NoArgs => o2 <= i < o3 && events[i] == NoArgsCalls(groups, s)[i - o2]
            case End => o3 <= i < o4 && events[i] == EndCalls(groups, s)[i - o3]
            case Success => o4 <= i < o5 && !s.failed && events[i] == LastCalls(groups, s)[i - o4]
            case Error => o4 <= i < o5 && s.failed && events[i] == LastCalls(groups, s)[i - o4]
            case Fini => o5 <= i < o5 + |FiniCalls(groups)| && events[i] == FiniCalls(groups)[i - o5]
            case _ => o1 <= i < o2
  {
    hide CallsFor;
    var o1 := |InitCalls(groups)|;
    var o2 := o1 + |s.body|;
    var o3 := o2 + |NoArgsCalls(groups, s)|;
    var o4 := o3 + |EndCalls(groups, s)|;
    var o5 := o4 + |LastCalls(groups, s)|;
    var n := |groups|;
    if i < o1 {
      CallsAreOf(groups, Init, Up(n), i);
    } else if i < o2 {
      assert events[i] == s.body[i - o1];
    } else if i < o3 {
      CallsAreOf(groups, NoArgs, IdleUp(s.body, s.idleTo), i - o2);
    } else if i < o4 {
      CallsAreOf(groups, End, Down(n, s.endFrom), i - o3);
    } else if i < o5 {
      if s.failed {
        CallsAreOf(groups, Error, Up(n), i - o4);
      } else {
        CallsAreOf(groups, Success, Down(n, s.successFrom), i - o4);
      }
    } else {
      CallsAreOf(groups, Fini, Down(n, 0), i - o5);
    }
  }

  /** Earlier groups are initialised before later ones and are told of the
      end, of success and of the finish after them. */
  lemma CallsFollowGroups(groups: seq<Group>, events: seq<Event>, s: Stages, i: nat, j: nat)
    requires IsRun(groups, events, s) && i < |events| && j < |events|
    requires events[i].Call? && events[j].Call? && events[i].key == events[j].key
    requires events[i].group < events[j].group
    ensures events[i].key.Init? ==> i < j
    ensures events[i].key.End? || events[i].key.Success? || events[i].key.Fini? ==> j < i
  {
    hide CallsFor, Up, Down, IdleUp, Idle, IsRun;
    var n := |groups|;
    WhereCalled(groups, events, s, i);
    WhereCalled(groups, events, s, j);
    var o3 := |InitCalls(groups)| + |s.body| + |NoArgsCalls(groups, s)|;
    var o4 := o3 + |EndCalls(groups, s)|;
    var o5 := o4 + |LastCalls(groups, s)|;
    if events[i].key.Init? && j < i {
      UpAscends(n);
      CallsKeepOrder(groups, Init, Up(n), 1, j, i);
    } else if events[i].key.End? && i < j {
      DownDescends(n, s.endFrom);
      CallsKeepOrder(groups, End, Down(n, s.endFrom), -1, i - o3, j - o3);
    } else if events[i].key.Success? && i < j {
      DownDescends(n, s.successFrom);
      CallsKeepOrder(groups, Success, Down(n, s.successFrom), -1, i - o4, j - o4);
    } else if events[i].key.Fini? && i < j {
      DownDescends(n, 0);
      CallsKeepOrder(groups, Fini, Down(n, 0), -1, i - o5, j - o5);
    }
  }

  /** ARGP_KEY_NO_ARGS goes only to groups that were credited no argument. */
  lemma NoArgsOnlyWhenIdle(groups: seq<Group>, events: seq<Event>, s: Stages, i: nat)
    requires IsRun(groups, events, s) && i < |events| && events[i] == Call(events[i].group, NoArgs)
    ensures Idle(events, events[i].group)
  {
    var g := events[i].group;
    WhereCalled(groups, events, s, i);
    var o1 := |InitCalls(groups)|;
    var o2 := o1 + |s.body|;
    CallsAreOf(groups, NoArgs, IdleUp(s.body, s.idleTo), i - o2);
    IdleUpAscends(s.body, s.idleTo);
    forall k | 0 <= k < |events| ensures !(events[k].Credit? && events[k].group == g) {
      if o1 <= k < o2 {
        assert events[k] == s.body[k - o1];
      } else {
        OutsideBodyOnlyCalls(groups, events, s, k);
      }
    }
  }

  lemma OutsideBodyOnlyCalls(groups: seq<Group>, events: seq<Event>, s: Stages, k: nat)
    requires IsRun(groups, events, s) && k < |events|
    requires !(|InitCalls(groups)| <= k < |InitCalls(groups)| + |s.body|)
    ensures events[k].Call?
  {
    hide CallsFor;
    var o1 := |InitCalls(groups)|;
    var o2 := o1 + |s.body|;
    var o3 := o2 + |NoArgsCalls(groups, s)|;
    var o4 := o3 + |EndCalls(groups, s)|;
    var o5 := o4 + |LastCalls(groups, s)|;
    if k < o1 {
      CallsAreOf(groups, Init, Up(|groups|), k);
    } else if k < o3 {
      CallsAreOf(groups, NoArgs, IdleUp(s.body, s.idleTo), k - o2);
    } else if k < o4 {
      CallsAreOf(groups, End, Down(|groups|, s.endFrom), k - o3);
    } else if k < o5 {
      if s.failed {
        CallsAreOf(groups, Error, Up(|groups|), k - o4);
      } else {
        CallsAreOf(groups, Success, Down(|groups|, s.successFrom), k - o4);
      }
    } else {
      CallsAreOf(groups, Fini, Down(|groups|, 0), k - o5);
    }
  }

  /** In a run over the tables of any tree, parents are initialised before
      their children, and hear of the end, of success and of the finish after
      them. */
  lemma ParentsFirstInLastOut(a: Argp, inOrder: bool, events: seq<Event>, s: Stages, i: nat, j: nat)
    requires IsRun(TablesOf(a, inOrder).groups, events, s) && i < |events| && j < |events|
    requires events[i].Call? && events[j].Call? && events[i].key == events[j].key
    requires var groups := TablesOf(a, inOrder).groups;
             0 <= events[j].group < |groups| && groups[events[j].group].parent == events[i].group != NO_GROUP
    ensures events[i].key.Init? ==> i < j
    ensures events[i].key.End? || events[i].key.Success? || events[i].key.Fini? ==> j < i
  {
    TablesFollowTree(a, inOrder);
    assert Linked(TablesOf(a, inOrder).groups, events[j].group);
    CallsFollowGroups(TablesOf(a, inOrder).groups, events, s, i, j);
  }
}
