/** The paced event loop of ft_ping. Times are in milliseconds. */
module PingPacing {
  import opened Streams
  import opened PingRing
  import opened Wrappers

  const MAX_WAIT := 3600000

  datatype Poll = Failed | Interrupted | Expired | Readable

  /** What the loop meets in one round: whether an interrupt has come, the
      clock, what poll returns, the packets queued, the clock again, whether
      sendto would take a packet and the clock after it. */
  datatype Round = Round(stop: bool, now: real, poll: Poll, queue: seq<Arrival>, recvFailed: bool, later: real,
                         send: Probe, after: real)

  /** What send_one meets: an interrupt before it, the clock, sendto. */
  datatype Probe = Probe(stop: bool, stamp: real, ok: bool)

  datatype Config = Config(interval: real, deadline: Option<real>, exitOnReply: bool)

  /** The loop's state: when the last packet went out, packets sent, replies,
      when sends were decided, the timeouts given to poll, and whether the
      loop is over. */
  datatype Pace = Pace(lastSend: real, nSent: int, nRecv: int, decided: seq<real>, timeouts: seq<int>, over: bool)

  function Ceil(d: real): int {
    -((-d).Floor)
  }

  /** ms_until */
  function MsUntil(target: real, now: real): (ms: int)
    ensures 0 <= ms <= 3600000
    ensures ms < 3600000 ==> now + ms as real >= target
    ensures target - now <= 3600000.0 ==> now + ms as real >= target
    ensures ms > 0 ==> (ms - 1) as real < target - now
  {
    var d := target - now;
    if d < 0.0 then 0 else if d > MAX_WAIT as real then MAX_WAIT else Ceil(d)
  }

  predicate Past(deadline: Option<real>, t: real) {
    deadline.Some? && t >= deadline.value
  }

  /** The next thing to wait for. */
  function Target(cfg: Config, st: Pace): real {
    var next := st.lastSend + cfg.interval;
    if cfg.deadline.Some? && cfg.deadline.value < next then cfg.deadline.value else next
  }

  /** How many packets of a queue are replies. */
  function Replies(id: seq<int>, queue: seq<Arrival>): nat {
    if queue == [] then 0
    else Replies(id, queue[..|queue| - 1]) + if Replied(queue[|queue| - 1].bytes, id).Some? then 1 else 0
  }

  /** One round. */
  function Step(cfg: Config, id: seq<int>, st: Pace, r: Round): Pace {
    if st.over then st
    else if r.stop || Past(cfg.deadline, r.now) then st.(over := true)
    else
      var asked := st.(timeouts := st.timeouts + [MsUntil(Target(cfg, st), r.now)]);
      match r.poll
      case Failed => asked.(over := true)
      case Interrupted => asked
      case Expired => Send(cfg, asked, r)
      case Readable =>
        var heard := asked.(nRecv := asked.nRecv + Replies(id, r.queue));
        if r.recvFailed || (cfg.exitOnReply && heard.nRecv > 0) then heard.(over := true)
        else Send(cfg, heard, r)
  }

  /** The end of a round, where the clock decides. */
  function Send(cfg: Config, st: Pace, r: Round): Pace {
    if Past(cfg.deadline, r.later) then st.(over := true)
    else if r.later >= st.lastSend + cfg.interval then
      var decided := st.(decided := st.decided + [r.later]);
      if r.send.ok then decided.(nSent := st.nSent + 1, lastSend := r.after) else decided.(over := true)
    else st
  }

  function Run(cfg: Config, id: seq<int>, st: Pace, rounds: seq<Round>): Pace {
    if rounds == [] then st else Step(cfg, id, Run(cfg, id, st, rounds[..|rounds| - 1]), rounds[|rounds| - 1])
  }

  // ---------------------------------------------------------------------
  // The loop

  lemma {:induction false} RepliesAreRtts(ring: seq<real>, id: seq<int>, queue: seq<Arrival>)
    requires |ring| == RING
    ensures |RttsOf(ring, id, queue)| == Replies(id, queue)
  {
    if queue != [] {
      RepliesAreRtts(ring, id, queue[..|queue| - 1]);
    }
  }

  predicate GoodRound(r: Round) {
    forall k :: 0 <= k < |r.queue| ==> IsBytes(r.queue[k].bytes)
  }

  /** An interrupt before a packet, or one that sendto does not take. */
  predicate Halts(p: Probe) {
    p.stop || !p.ok
  }

  class Pinger {
    const session: Session
    const cfg: Config
    const little: bool
    var lastSend: real
    var over: bool
    /** When sends were decided and what poll was given, in order. */
    ghost var decided: seq<real>
    ghost var timeouts: seq<int>

    ghost predicate Valid()
      reads this, session, session.pkt, session.sendTs
    {
      session.Valid() && cfg.interval > 0.0
    }

    constructor (session: Session, cfg: Config, little: bool)
      requires session.Valid() && cfg.interval > 0.0
      ensures Valid() && this.session == session && this.cfg == cfg && !over && decided == [] && timeouts == []
    {
      this.session, this.cfg, this.little := session, cfg, little;
      lastSend, over, decided, timeouts := 0.0, false, [], [];
    }

    ghost function State(): Pace
      reads this, session
    {
      Pace(lastSend, session.nSent, |session.rtts|, decided, timeouts, over)
    }

    /** A packet of the preload burst or the first paced one. */
    method SendProbe(p: Probe)
      requires Valid()
      modifies this`over, session, session.pkt, session.sendTs
      ensures Valid() && session.rtts == old(session.rtts)
      ensures session.nSent == old(session.nSent) + (if p.ok then 1 else 0) && over == (old(over) || !p.ok)
    {
      hide Session.Valid;
      var rc := session.SendOne(p.stamp, little, p.ok);
      if rc == -1 {
        over := true;
      }
    }

    /** The preload burst and the first paced packet, then the clock. */
    method Preload(preload: nat, probes: seq<Probe>, t0: real)
      requires Valid() && session.nSent == 0 && !over
      requires |probes| == preload + 1
      modifies this`lastSend, this`over, session, session.pkt, session.sendTs
      ensures Valid() && lastSend == t0 && decided == old(decided) && session.rtts == old(session.rtts)
      ensures session.nSent <= preload + 1
      ensures over <==> exists k :: 0 <= k <= preload && (probes[k].stop || !probes[k].ok)
      ensures !over ==> session.nSent == preload + 1
    {
      hide Session.Valid;
      var i := 0;
      over := probes[0].stop;
      while i < preload && !over
        invariant i <= preload && Valid() && session.nSent <= i && session.rtts == old(session.rtts)
        invariant !over ==> session.nSent == i && !probes[i].stop
        invariant !over ==> forall k :: 0 <= k < i ==> !Halts(probes[k])
        invariant over ==> exists k :: 0 <= k <= i && Halts(probes[k])
      {
        SendProbe(probes[i]);
        i := i + 1;
        over := over || probes[i].stop;
      }
      if !over {
        SendProbe(probes[i]);
      }
      lastSend := t0;
    }

    /** One turn of the event loop. */
    method Turn(r: Round)
      requires Valid() && GoodRound(r) && !over
      modifies this, session, session.pkt, session.sendTs
      ensures Valid() && State() == Step(cfg, session.id, old(State()), r)
    {
      hide MsUntil, Send, Past, Replies, Session.Valid;
      if r.stop {
        over := true;
        return;
      }
      if Past(cfg.deadline, r.now) {
        over := true;
        return;
      }
      var nextSend := lastSend + cfg.interval;
      var target := if cfg.deadline.Some? && cfg.deadline.value < nextSend then cfg.deadline.value else nextSend;
      var timeout := MsUntil(target, r.now);
      timeouts := timeouts + [timeout];
      if r.poll == Failed {
        over := true;
        return;
      }
      if r.poll == Interrupted {
        return;
      }
      if r.poll == Readable {
        var quit := Hear(r);
        if quit {
          over := true;
          return;
        }
      }
      EndTurn(r, nextSend);
    }

    /** Everything queued is read; whether that ends the loop. */
    method Hear(r: Round) returns (quit: bool)
      requires Valid() && GoodRound(r)
      modifies session`totals, session`rtts, session`reports
      ensures Valid() && State() == old(State()).(nRecv := old(State()).nRecv + Replies(session.id, r.queue))
      ensures quit == (r.recvFailed || (cfg.exitOnReply && State().nRecv > 0))
    {
      RepliesAreRtts(session.sendTs[..], session.id, r.queue);
      var rc := session.FtRecResp(r.queue, r.recvFailed);
      quit := rc == -1 || (cfg.exitOnReply && session.totals.n > 0);
    }

    /** Sending is decided by the clock. */
    method EndTurn(r: Round, nextSend: real)
      requires Valid() && GoodRound(r) && nextSend == lastSend + cfg.interval
      modifies this`lastSend, this`over, this`decided, session, session.pkt, session.sendTs
      ensures Valid() && State() == Send(cfg, old(State()), r)
    {
      if Past(cfg.deadline, r.later) {
        over := true;
        return;
      }
      if r.later >= nextSend {
        decided := decided + [r.later];
        var rc := session.SendOne(r.send.stamp, little, r.send.ok);
        if rc == -1 {
          over := true;
          return;
        }
        lastSend := r.after;
      }
    }

    /** The event loop over what happens to come. */
    method EventLoop(rounds: seq<Round>)
      requires Valid() && forall k :: 0 <= k < |rounds| ==> GoodRound(rounds[k])
      modifies this, session, session.pkt, session.sendTs
      ensures Valid() && State() == Run(cfg, session.id, old(State()), rounds)
    {
      hide Run, Step, Session.Valid;
      ghost var st := State();
      RunEnds(cfg, session.id, st, rounds);
      var i := 0;
      while i < |rounds| && !over
        invariant i <= |rounds| && Valid() && State() == Run(cfg, session.id, st, rounds[..i])
      {
        NextRound(cfg, session.id, st, rounds, i);
        Turn(rounds[i]);
        i := i + 1;
      }
      if over {
        StaysOver(cfg, session.id, st, rounds, i);
      }
    }
  }

  lemma RunEnds(cfg: Config, id: seq<int>, st: Pace, rounds: seq<Round>)
    ensures Run(cfg, id, st, rounds[..0]) == st && rounds[..|rounds|] == rounds
  {
  }

  /** main, from the preload burst on: never more packets than the burst, the
      first paced one and one for each interval since, and none of the paced
      ones decided from the deadline on. */
  method Ping(p: Pinger, preload: nat, probes: seq<Probe>, t0: real, rounds: seq<Round>)
    requires p.Valid() && p.session.nSent == 0 && !p.over && p.decided == []
    requires |probes| == preload + 1
    requires forall k :: 0 <= k < |rounds| ==> GoodRound(rounds[k])
    modifies p, p.session, p.session.pkt, p.session.sendTs
    ensures p.Valid()
    ensures forall k :: 0 <= k < |p.decided| ==> p.cfg.deadline.Some? ==> p.decided[k] < p.cfg.deadline.value
    ensures Monotone(rounds, t0) ==> p.session.nSent <= preload + 1 + Periods(p.lastSend - t0, p.cfg.interval)
  {
    p.Preload(preload, probes, t0);
    ghost var st := p.State();
    assert AllBefore(p.cfg.deadline, st.decided);
    p.EventLoop(rounds);
    hide Run, Periods, Monotone, AllBefore, Session.Valid;
    DecidedBeforeDeadline(p.cfg, p.session.id, st, rounds);
    if Monotone(rounds, t0) {
      PacedSends(p.cfg, p.session.id, st, rounds, p.lastSend);
    }
  }

  lemma NextRound(cfg: Config, id: seq<int>, st: Pace, rounds: seq<Round>, i: nat)
    requires i < |rounds|
    ensures Run(cfg, id, st, rounds[..i + 1]) == Step(cfg, id, Run(cfg, id, st, rounds[..i]), rounds[i])
  {
    assert rounds[..i + 1][..i] == rounds[..i];
  }

  lemma {:induction false} StaysOver(cfg: Config, id: seq<int>, st: Pace, rounds: seq<Round>, i: nat)
    requires i <= |rounds| && Run(cfg, id, st, rounds[..i]).over
    ensures Run(cfg, id, st, rounds) == Run(cfg, id, st, rounds[..i])
    decreases |rounds| - i
  {
    assert rounds[..|rounds|] == rounds;
    if i < |rounds| {
      NextRound(cfg, id, st, rounds, i);
      StaysOver(cfg, id, st, rounds, i + 1);
    }
  }

  // ---------------------------------------------------------------------
  // When a run ends and what it does until then

  /** The clock was looked at after poll, and a packet was due. */
  predicate Due(cfg: Config, lastSend: real, r: Round) {
    (r.poll == Expired || r.poll == Readable) && r.later >= lastSend + cfg.interval
  }

  /** What ends the loop in one round: an interrupt, the deadline at either
      reading of the clock, a failed poll, a failed receive, a reply under -o,
      a packet that was due and that sendto does not take. */
  predicate Ends(cfg: Config, id: seq<int>, lastSend: real, heard: int, r: Round) {
    || r.stop
    || (cfg.deadline.Some? && r.now >= cfg.deadline.value)
    || r.poll == Failed
    || (r.poll == Readable && (r.recvFailed || (cfg.exitOnReply && heard + Replies(id, r.queue) > 0)))
    || (r.poll != Interrupted && cfg.deadline.Some? && r.later >= cfg.deadline.value)
    || (Due(cfg, lastSend, r) && !r.send.ok)
  }

  /** When the last packet went out, after rounds none of which ends the
      loop. */
  function LastSent(cfg: Config, t0: real, rounds: seq<Round>): real {
    if rounds == [] then t0
    else
      var n := |rounds| - 1;
      var before := LastSent(cfg, t0, rounds[..n]);
      if Due(cfg, before, rounds[n]) then rounds[n].after else before
  }

  /** How many packets went out in them. */
  function Sent(cfg: Config, t0: real, rounds: seq<Round>): nat {
    if rounds == [] then 0
    else
      var n := |rounds| - 1;
      Sent(cfg, t0, rounds[..n]) + if Due(cfg, LastSent(cfg, t0, rounds[..n]), rounds[n]) then 1 else 0
  }

  /** How many replies were heard in them. */
  function Heard(id: seq<int>, rounds: seq<Round>): nat {
    if rounds == [] then 0
    else
      var n := |rounds| - 1;
      Heard(id, rounds[..n]) + if rounds[n].poll == Readable then Replies(id, rounds[n].queue) else 0
  }

  /** Round `k` ends the loop, no earlier one having done so. */
  predicate EndsAt(cfg: Config, id: seq<int>, st: Pace, rounds: seq<Round>, k: int) {
    0 <= k < |rounds| && Ends(cfg, id, LastSent(cfg, st.lastSend, rounds[..k]), st.nRecv + Heard(id, rounds[..k]),
                              rounds[k])
  }

  /** One round of a loop that is not over. */
  lemma StepEnds(cfg: Config, id: seq<int>, st: Pace, r: Round)
    requires !st.over
    ensures var e := Step(cfg, id, st, r);
            && (e.over <==> Ends(cfg, id, st.lastSend, st.nRecv, r))
            && (!e.over ==>
                  && e.nSent == st.nSent + (if Due(cfg, st.lastSend, r) then 1 else 0)
                  && e.lastSend == (if Due(cfg, st.lastSend, r) then r.after else st.lastSend)
                  && e.nRecv == st.nRecv + (if r.poll == Readable then Replies(id, r.queue) else 0)
                  && e.decided == st.decided + (if Due(cfg, st.lastSend, r) then [r.later] else []))
  {
    hide MsUntil, Target, Replies;
    assert st.decided + [] == st.decided;
  }

  lemma EndsAtFront(cfg: Config, id: seq<int>, st: Pace, rounds: seq<Round>, k: int)
    requires rounds != [] && k < |rounds| - 1
    ensures EndsAt(cfg, id, st, rounds, k) <==> EndsAt(cfg, id, st, rounds[..|rounds| - 1], k)
  {
    hide Ends, LastSent, Heard;
    assert 0 <= k ==> rounds[..|rounds| - 1][..k] == rounds[..k];
  }

  /** Over whole runs: the loop is over exactly when some round ends it; until
      then every packet that is due goes out, every reply is heard, and the
      last send is that of the latest round that sent. */
  lemma {:induction false} OverIff(cfg: Config, id: seq<int>, st: Pace, rounds: seq<Round>)
    requires !st.over
    ensures var e := Run(cfg, id, st, rounds);
            && (e.over <==> exists k :: EndsAt(cfg, id, st, rounds, k))
            && (!e.over ==>
                  && e.nSent == st.nSent + Sent(cfg, st.lastSend, rounds)
                  && e.lastSend == LastSent(cfg, st.lastSend, rounds)
                  && e.nRecv == st.nRecv + Heard(id, rounds))
  {
    hide Step, Ends, Due;
    if rounds != [] {
      var n := |rounds| - 1;
      var before := Run(cfg, id, st, rounds[..n]);
      assert Run(cfg, id, st, rounds) == Step(cfg, id, before, rounds[n]);
      OverIff(cfg, id, st, rounds[..n]);
      forall k: int | k < n ensures EndsAt(cfg, id, st, rounds, k) <==> EndsAt(cfg, id, st, rounds[..n], k) {
        EndsAtFront(cfg, id, st, rounds, k);
      }
      if before.over {
        OverStays(cfg, id, before, rounds[n]);
        var k :| EndsAt(cfg, id, st, rounds[..n], k);
        assert EndsAt(cfg, id, st, rounds, k);
      } else {
        StepEnds(cfg, id, before, rounds[n]);
        hide Run;
        assert before.over || forall k :: EndsAt(cfg, id, st, rounds, k) ==> k == n;
        assert EndsAt(cfg, id, st, rounds, n)
          <==> Ends(cfg, id, LastSent(cfg, st.lastSend, rounds[..n]), st.nRecv + Heard(id, rounds[..n]), rounds[n]);
      }
    }
  }

  lemma OverStays(cfg: Config, id: seq<int>, st: Pace, r: Round)
    requires st.over
    ensures Step(cfg, id, st, r) == st
  {
  }

  /** An interrupted poll that is no request to stop leaves everything as it
      was, apart from the wait that it cut short. */
  lemma InterruptedGoesOn(cfg: Config, id: seq<int>, st: Pace, r: Round)
    requires !st.over && !r.stop && (cfg.deadline.Some? ==> r.now < cfg.deadline.value) && r.poll == Interrupted
    ensures var e := Step(cfg, id, st, r); !e.over && e == st.(timeouts := e.timeouts)
  {
    hide MsUntil, Target;
  }

  /** What poll is told: to wait for the next send or for the deadline,
      whichever comes first, and for neither a millisecond longer. */
  lemma PollWaits(cfg: Config, id: seq<int>, st: Pace, r: Round)
    requires !st.over && !r.stop && (cfg.deadline.Some? ==> r.now < cfg.deadline.value)
    ensures var e := Step(cfg, id, st, r);
            && |e.timeouts| == |st.timeouts| + 1 && e.timeouts[..|st.timeouts|] == st.timeouts
            && var ms := e.timeouts[|st.timeouts|];
               && 0 <= ms <= MAX_WAIT
               && (ms < MAX_WAIT ==> r.now + ms as real >= st.lastSend + cfg.interval
                                     || (cfg.deadline.Some? && r.now + ms as real >= cfg.deadline.value))
               && (ms > 0 ==> r.now + (ms - 1) as real < st.lastSend + cfg.interval)
               && (ms > 0 && cfg.deadline.Some? ==> r.now + (ms - 1) as real < cfg.deadline.value)
  {
    hide MsUntil, Replies, Past;
    var waits := st.timeouts + [MsUntil(Target(cfg, st), r.now)];
    assert Step(cfg, id, st, r).timeouts == waits by {
      hide Target;
      assert !Past(cfg.deadline, r.now) by {
        NotPast(cfg.deadline, r.now);
      }
    }
    assert waits[..|st.timeouts|] == st.timeouts;
  }

  lemma NotPast(deadline: Option<real>, t: real)
    ensures Past(deadline, t) <==> deadline.Some? && t >= deadline.value
  {
  }

  // ---------------------------------------------------------------------
  // Pacing over whole runs

  /** The clock after the rounds. */
  function Clock(rounds: seq<Round>, t0: real): real {
    if rounds == [] then t0 else rounds[|rounds| - 1].after
  }

  /** The clock never goes back. */
  predicate Monotone(rounds: seq<Round>, t0: real) {
    forall k :: 0 <= k < |rounds| ==>
      Clock(rounds[..k], t0) <= rounds[k].now <= rounds[k].later <= rounds[k].after
  }

  lemma MonotoneFront(rounds: seq<Round>, t0: real)
    requires Monotone(rounds, t0) && rounds != []
    ensures var n := |rounds| - 1;
            && Monotone(rounds[..n], t0)
            && Clock(rounds[..n], t0) <= rounds[n].now <= rounds[n].later <= rounds[n].after == Clock(rounds, t0)
  {
    var n := |rounds| - 1;
    forall k | 0 <= k < n ensures Clock(rounds[..n][..k], t0) <= rounds[k].now {
      assert rounds[..n][..k] == rounds[..k];
    }
  }

  function Times(k: int, d: real): real {
    k as real * d
  }

  lemma OneMoreTime(k: int, d: real)
    ensures Times(k + 1, d) == Times(k, d) + d && Times(0, d) == 0.0
  {
  }

  lemma StepApart(cfg: Config, id: seq<int>, st: Pace, r: Round)
    requires r.now <= r.later <= r.after
    ensures var e := Step(cfg, id, st, r);
            || (e.nSent == st.nSent && e.lastSend == st.lastSend)
            || (e.nSent == st.nSent + 1 && e.lastSend == r.after >= st.lastSend + cfg.interval)
  {
    hide MsUntil, Target, Replies, Past;
  }

  /** After `k` paced sends at least `k` intervals have passed. */
  lemma {:induction false} SendsAreApart(cfg: Config, id: seq<int>, st: Pace, rounds: seq<Round>)
    requires cfg.interval > 0.0 && Monotone(rounds, st.lastSend)
    ensures var e := Run(cfg, id, st, rounds);
            && e.nSent >= st.nSent
            && st.lastSend + Times(e.nSent - st.nSent, cfg.interval) <= e.lastSend <= Clock(rounds, st.lastSend)
  {
    hide Monotone, Times, Step;
    OneMoreTime(0, cfg.interval);
    if rounds != [] {
      var n := |rounds| - 1;
      var before := Run(cfg, id, st, rounds[..n]);
      assert Run(cfg, id, st, rounds) == Step(cfg, id, before, rounds[n]);
      hide Run, Clock;
      MonotoneFront(rounds, st.lastSend);
      SendsAreApart(cfg, id, st, rounds[..n]);
      OneMoreTime(before.nSent - st.nSent, cfg.interval);
      StepApart(cfg, id, before, rounds[n]);
    }
  }

  /** How many whole periods `d` the time `t` has. */
  function Periods(t: real, d: real): int
    requires d > 0.0
  {
    (t / d).Floor
  }

  lemma PeriodsBound(k: int, d: real, t: real)
    requires d > 0.0 && Times(k, d) <= t
    ensures k <= Periods(t, d)
  {
    assert t / d * d == t;
    assert k as real <= t / d;
  }

  /** Over whole runs, packets sent since the reading `st.lastSend` after the
      first paced one are at most one for each interval that has passed, at
      any instant `now` from the last send on. */
  lemma PacedSends(cfg: Config, id: seq<int>, st: Pace, rounds: seq<Round>, now: real)
    requires cfg.interval > 0.0 && Monotone(rounds, st.lastSend) && now >= Run(cfg, id, st, rounds).lastSend
    ensures Run(cfg, id, st, rounds).nSent <= st.nSent + Periods(now - st.lastSend, cfg.interval)
  {
    hide Run, Monotone, Periods, Times;
    SendsAreApart(cfg, id, st, rounds);
    PeriodsBound(Run(cfg, id, st, rounds).nSent - st.nSent, cfg.interval, now - st.lastSend);
  }

  /** With -o a run that goes on has heard no reply. */
  lemma {:induction false} StopsAtFirstReply(cfg: Config, id: seq<int>, st: Pace, rounds: seq<Round>)
    requires cfg.exitOnReply && st.nRecv == 0 && !Run(cfg, id, st, rounds).over
    ensures Run(cfg, id, st, rounds).nRecv == 0
    ensures forall k :: 0 <= k < |rounds| && rounds[k].poll == Readable ==> Replies(id, rounds[k].queue) == 0
  {
    hide MsUntil, Target, Past, Replies;
    if rounds != [] {
      StopsAtFirstReply(cfg, id, st, rounds[..|rounds| - 1]);
    }
  }

  predicate AllBefore(deadline: Option<real>, decided: seq<real>) {
    forall k :: 0 <= k < |decided| ==> !Past(deadline, decided[k])
  }

  lemma StepBefore(cfg: Config, id: seq<int>, st: Pace, r: Round)
    requires AllBefore(cfg.deadline, st.decided)
    ensures AllBefore(cfg.deadline, Step(cfg, id, st, r).decided)
  {
    hide MsUntil, Target, Replies;
  }

  /** No send is decided at or after the deadline. */
  lemma {:induction false} DecidedBeforeDeadline(cfg: Config, id: seq<int>, st: Pace, rounds: seq<Round>)
    requires AllBefore(cfg.deadline, st.decided)
    ensures AllBefore(cfg.deadline, Run(cfg, id, st, rounds).decided)
  {
    if rounds != [] {
      var n := |rounds| - 1;
      DecidedBeforeDeadline(cfg, id, st, rounds[..n]);
      StepBefore(cfg, id, Run(cfg, id, st, rounds[..n]), rounds[n]);
    }
  }

  // ---------------------------------------------------------------------
  // Termination

  /** poll does not return empty-handed before its timeout. */
  predicate Timely(cfg: Config, st: Pace, r: Round) {
    r.poll == Expired ==> r.later >= r.now + MsUntil(Target(cfg, st), r.now) as real
  }

  /** The wait was cut to an hour. */
  predicate Clamped(cfg: Config, st: Pace, r: Round) {
    Target(cfg, st) - r.now > MAX_WAIT as real
  }

  /** A timeout that was not cut always leads to a send or to the end, and to
      a send unless there was an interrupt, the deadline has come, or sendto
      does not take the packet. */
  lemma UnclampedActs(cfg: Config, id: seq<int>, st: Pace, r: Round)
    requires !st.over && r.poll == Expired && Timely(cfg, st, r) && !Clamped(cfg, st, r)
    ensures var e := Step(cfg, id, st, r); e.over || e.nSent == st.nSent + 1
    ensures !r.stop && r.send.ok && (cfg.deadline.Some? ==> r.now < cfg.deadline.value && r.later < cfg.deadline.value)
            ==> var e := Step(cfg, id, st, r); !e.over && e.nSent == st.nSent + 1 && e.lastSend == r.after
  {
    hide Replies;
    assert r.later >= Target(cfg, st);
    hide MsUntil;
  }

  /** A round in which poll times out in its own time and nothing stops the
      program. */
  predicate Undisturbed(cfg: Config, st: Pace, r: Round) {
    && r.poll == Expired && Timely(cfg, st, r) && !Clamped(cfg, st, r) && !r.stop && r.send.ok
    && (cfg.deadline.Some? ==> r.now < cfg.deadline.value && r.later < cfg.deadline.value)
  }

  /** A run of undisturbed rounds sends one packet in each. */
  lemma {:induction false} EveryTimeoutSends(cfg: Config, id: seq<int>, st: Pace, rounds: seq<Round>)
    requires !st.over
    requires forall k :: 0 <= k < |rounds| ==> Undisturbed(cfg, Run(cfg, id, st, rounds[..k]), rounds[k])
    ensures !Run(cfg, id, st, rounds).over && Run(cfg, id, st, rounds).nSent == st.nSent + |rounds|
  {
    if rounds != [] {
      var n := |rounds| - 1;
      NextRound(cfg, id, st, rounds, n);
      assert rounds[..n + 1] == rounds;
      hide Run, Step, Timely, Clamped;
      forall k | 0 <= k < n ensures Undisturbed(cfg, Run(cfg, id, st, rounds[..n][..k]), rounds[..n][k]) {
        assert rounds[..n][..k] == rounds[..k];
      }
      EveryTimeoutSends(cfg, id, st, rounds[..n]);
      UnclampedActs(cfg, id, Run(cfg, id, st, rounds[..n]), rounds[n]);
    }
  }

  /** Every poll that timed out in the run was timely. */
  predicate AllTimely(cfg: Config, id: seq<int>, st: Pace, rounds: seq<Round>) {
    forall k :: 0 <= k < |rounds| ==> Timely(cfg, Run(cfg, id, st, rounds[..k]), rounds[k])
  }

  /** Rounds in which poll was woken up. */
  function WakeUps(rounds: seq<Round>): nat {
    if rounds == [] then 0
    else
      var p := rounds[|rounds| - 1].poll;
      WakeUps(rounds[..|rounds| - 1]) + if p == Readable || p == Interrupted then 1 else 0
  }

  lemma TimelyFront(cfg: Config, id: seq<int>, st: Pace, rounds: seq<Round>)
    requires AllTimely(cfg, id, st, rounds) && rounds != []
    ensures var n := |rounds| - 1;
            AllTimely(cfg, id, st, rounds[..n]) && Timely(cfg, Run(cfg, id, st, rounds[..n]), rounds[n])
  {
    hide Timely;
    var n := |rounds| - 1;
    forall k | 0 <= k < n ensures Timely(cfg, Run(cfg, id, st, rounds[..n][..k]), rounds[..n][k]) {
      assert rounds[..n][..k] == rounds[..k];
    }
  }

  /** What one more round costs: a wake-up, a send before the deadline, or an
      hour before the deadline. */
  lemma RoundCosts(cfg: Config, id: seq<int>, st: Pace, r: Round, d: real)
    requires cfg.deadline == Some(d) && Timely(cfg, st, r) && r.now <= r.later <= r.after
    requires !Step(cfg, id, st, r).over
    ensures !st.over && r.now < d
    ensures var e := Step(cfg, id, st, r);
            || ((r.poll == Readable || r.poll == Interrupted) && e.nSent == st.nSent)
            || (e.nSent == st.nSent + 1 && d > r.later >= st.lastSend + cfg.interval)
            || (e.nSent == st.nSent && d > r.later >= r.now + MAX_WAIT as real)
  {
    if r.poll == Expired && !Clamped(cfg, st, r) {
      UnclampedActs(cfg, id, st, r);
    }
    hide Replies, Target;
  }

  /** The rounds of a run that is not over are wake-ups, sends, and waits of an
      hour; the latter two all lie before the deadline. */
  lemma {:induction false} RoundsAreSpent(cfg: Config, id: seq<int>, st: Pace, rounds: seq<Round>, d: real)
      returns (hours: nat)
    requires cfg.interval > 0.0 && cfg.deadline == Some(d) && Monotone(rounds, st.lastSend)
    requires AllTimely(cfg, id, st, rounds) && !Run(cfg, id, st, rounds).over
    ensures var e := Run(cfg, id, st, rounds);
            && e.nSent >= st.nSent && |rounds| <= WakeUps(rounds) + (e.nSent - st.nSent) + hours
            && (e.nSent > st.nSent ==> st.lastSend + Times(e.nSent - st.nSent, cfg.interval) < d)
            && (hours > 0 ==> st.lastSend + Times(hours, MAX_WAIT as real) < d)
            && st.lastSend + Times(hours, MAX_WAIT as real) <= Clock(rounds, st.lastSend)
  {
    hide Monotone, AllTimely, Times, Step, Timely;
    hours := 0;
    OneMoreTime(0, MAX_WAIT as real);
    if rounds != [] {
      var n := |rounds| - 1;
      var before, r := Run(cfg, id, st, rounds[..n]), rounds[n];
      assert Run(cfg, id, st, rounds) == Step(cfg, id, before, r);
      assert WakeUps(rounds) == WakeUps(rounds[..n]) + if r.poll == Readable || r.poll == Interrupted then 1 else 0;
      hide Run, WakeUps, Clock;
      MonotoneFront(rounds, st.lastSend);
      TimelyFront(cfg, id, st, rounds);
      RoundCosts(cfg, id, before, r, d);
      hours := RoundsAreSpent(cfg, id, st, rounds[..n], d);
      SendsAreApart(cfg, id, st, rounds[..n]);
      OneMoreTime(before.nSent - st.nSent, cfg.interval);
      OneMoreTime(hours, MAX_WAIT as real);
      var e := Step(cfg, id, before, r);
      if !(r.poll == Readable || r.poll == Interrupted) && e.nSent == before.nSent {
        hours := hours + 1;
      }
    }
  }

  /** A run with a finite deadline ends after finitely many wake-ups: with `w`
      of them, within w plus one round for each interval and for each hour up
      to the deadline. */
  lemma RunTerminates(cfg: Config, id: seq<int>, st: Pace, rounds: seq<Round>, d: real)
    requires cfg.interval > 0.0 && cfg.deadline == Some(d) && st.lastSend <= d
    requires Monotone(rounds, st.lastSend) && AllTimely(cfg, id, st, rounds)
    requires |rounds| > WakeUps(rounds) + Periods(d - st.lastSend, cfg.interval)
                        + Periods(d - st.lastSend, MAX_WAIT as real)
    ensures Run(cfg, id, st, rounds).over
  {
    hide Run, Monotone, AllTimely, Times, Periods, WakeUps, Clock;
    if !Run(cfg, id, st, rounds).over {
      var hours := RoundsAreSpent(cfg, id, st, rounds, d);
      var k := Run(cfg, id, st, rounds).nSent - st.nSent;
      OneMoreTime(0, cfg.interval);
      OneMoreTime(0, MAX_WAIT as real);
      PeriodsBound(k, cfg.interval, d - st.lastSend);
      PeriodsBound(hours, MAX_WAIT as real, d - st.lastSend);
    }
  }
}
