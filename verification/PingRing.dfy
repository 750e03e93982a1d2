/** Probes and replies: the ring of send times, matching a reply to its probe,
    and the statistics of a session. */
module PingRing {
  import opened FirstSeen
  import opened Streams
  import opened PingStats
  import opened Wrappers
  import C = PingChecksum

  const RING := 65536
  const HEADER := 8
  const IP_HEADER := 20
  const CLOCK_BYTES := 16

  /** A packet as recvfrom returns it, and the clock when it is handled. */
  datatype Arrival = Arrival(bytes: seq<int>, at: real)

  /** The options that matter here; no pattern is an empty one. */
  datatype Flags = Flags(pattern: seq<int>, verbose: bool, quiet: bool, quietErrors: bool)

  /** The line printed for an ICMP error: the probe's number, type and code. */
  datatype Report = Report(number: int, kind: int, code: int)

  // ---------------------------------------------------------------------
  // Packets

  /** The last line of the summary; mdev is the root of the variance. */
  datatype Summary = Summary(min: real, mean: real, max: real, variance: real)

  /** A 16-bit number in network order. */
  function NetBytes(n: int): seq<int>
    requires 0 <= n < RING
  {
    [n / 256, n % 256]
  }

  function FromNet(a: int, b: int): int {
    256 * a + b
  }

  /** The length an IP header declares for itself. */
  function IpLength(b: seq<int>): int
    requires b != []
  {
    b[0] % 16 * 4
  }

  /** An IP header of 5 to 15 words. */
  predicate IsIpHeader(h: seq<int>) {
    |h| >= IP_HEADER && IsBytes(h) && IpLength(h) == |h|
  }

  /** An ICMP header of the given type and code. */
  function Icmp(kind: int, code: int, sum: seq<int>, id: seq<int>, number: int): seq<int>
    requires 0 <= number < RING
  {
    [kind, code] + sum + id + NetBytes(number)
  }

  /** The number of the probe that a packet replies to. */
  function Replied(b: seq<int>, id: seq<int>): Option<int> {
    if |b| < IP_HEADER then None
    else
      var n := IpLength(b);
      if n < IP_HEADER || |b| < n + HEADER || b[n] != 0 || b[n + 1] != 0 || b[n + 4..n + 6] != id then None
      else Some(FromNet(b[n + 6], b[n + 7]))
  }

  predicate Quotes(kind: int) {
    kind == 3 || kind == 4 || kind == 5 || kind == 11 || kind == 12
  }

  /** What is printed about an ICMP packet that is not an echo reply. */
  function ErrorReport(b: seq<int>, id: seq<int>, flags: Flags): Option<Report> {
    if |b| < IP_HEADER || IpLength(b) < IP_HEADER || |b| < IpLength(b) + HEADER then None
    else
      var n := IpLength(b);
      if b[n] == 0 && b[n + 1] == 0 then None
      else QuotedReport(b[n], b[n + 1], b[n + HEADER..], id, flags)
  }

  /** The same from the quoted datagram on. */
  function QuotedReport(kind: int, code: int, quoted: seq<int>, id: seq<int>, flags: Flags): Option<Report> {
    if !Quotes(kind) || |quoted| < IP_HEADER then None
    else
      var m := IpLength(quoted);
      if m < IP_HEADER || |quoted| < m + HEADER then None
      else if quoted[m + 4..m + 6] != id && !flags.verbose then None
      else if flags.quiet || flags.quietErrors then None
      else Some(Report(FromNet(quoted[m + 6], quoted[m + 7]), kind, code))
  }

  /** Packets are matched exactly when they are echo replies to us under some
      IP header of 5 to 15 words, whatever their checksum and data. */
  lemma RepliedIff(b: seq<int>, id: seq<int>, number: int)
    requires IsBytes(b) && |id| == 2 && 0 <= number < RING
    ensures Replied(b, id) == Some(number)
            <==> exists h, sum, data :: IsIpHeader(h) && |sum| == 2 && b == h + Icmp(0, 0, sum, id, number) + data
  {
    hide Replied, IsIpHeader, Icmp;
    if Replied(b, id) == Some(number) {
      var h, sum, data := ReplyParts(b, id, number);
    }
    forall h, sum, data | IsIpHeader(h) && |sum| == 2 && b == h + Icmp(0, 0, sum, id, number) + data
      ensures Replied(b, id) == Some(number)
    {
      ReplyMatches(h, sum, id, number, data);
    }
  }

  lemma ReplyParts(b: seq<int>, id: seq<int>, number: int) returns (h: seq<int>, sum: seq<int>, data: seq<int>)
    requires IsBytes(b) && |id| == 2 && 0 <= number < RING && Replied(b, id) == Some(number)
    ensures IsIpHeader(h) && |sum| == 2 && b == h + Icmp(0, 0, sum, id, number) + data
  {
    var n := IpLength(b);
    h, sum, data := b[..n], b[n + 2..n + 4], b[n + HEADER..];
    assert b[n + 6] == number / 256 && b[n + 7] == number % 256;
    Cut(b, n);
    CutHeader(b, n);
  }

  lemma ReplyMatches(h: seq<int>, sum: seq<int>, id: seq<int>, number: int, data: seq<int>)
    requires IsIpHeader(h) && |sum| == 2 && |id| == 2 && 0 <= number < RING
    ensures Replied(h + Icmp(0, 0, sum, id, number) + data, id) == Some(number)
  {
    var b, n := h + Icmp(0, 0, sum, id, number) + data, |h|;
    assert b[0] == h[0];
    assert b[n + 4..n + 6] == id;
    assert b[n + 6] == number / 256 && b[n + 7] == number % 256;
  }

  /** An ICMP error that quotes a probe is reported with the probe's number
      unless we are quiet or, not being verbose, the probe is not ours. */
  lemma ErrorNamesProbe(h: seq<int>, kind: int, code: int, rest: seq<int>, inner: seq<int>, sum: seq<int>,
                        probe: seq<int>, number: int, data: seq<int>, id: seq<int>, flags: Flags)
    requires IsIpHeader(h) && IsIpHeader(inner) && |rest| == 6 && |sum| == 2 && |probe| == 2 && 0 <= number < RING
    requires Quotes(kind)
    ensures ErrorReport(h + ([kind, code] + rest) + (inner + Icmp(8, 0, sum, probe, number) + data), id, flags)
            == if (probe == id || flags.verbose) && !flags.quiet && !flags.quietErrors
               then Some(Report(number, kind, code)) else None
  {
    var quoted := inner + Icmp(8, 0, sum, probe, number) + data;
    QuotedNamesProbe(kind, code, inner, sum, probe, number, data, id, flags);
    hide QuotedReport;
    var b, n := h + ([kind, code] + rest) + quoted, |h|;
    assert b[0] == h[0];
    assert b[n + HEADER..] == quoted;
  }

  lemma QuotedNamesProbe(kind: int, code: int, inner: seq<int>, sum: seq<int>, probe: seq<int>, number: int,
                         data: seq<int>, id: seq<int>, flags: Flags)
    requires IsIpHeader(inner) && |sum| == 2 && |probe| == 2 && 0 <= number < RING && Quotes(kind)
    ensures QuotedReport(kind, code, inner + Icmp(8, 0, sum, probe, number) + data, id, flags)
            == if (probe == id || flags.verbose) && !flags.quiet && !flags.quietErrors
               then Some(Report(number, kind, code)) else None
  {
    var quoted, m := inner + Icmp(8, 0, sum, probe, number) + data, |inner|;
    assert quoted[0] == inner[0];
    assert quoted[m + 4..m + 6] == probe;
    assert quoted[m + 6] == number / 256 && quoted[m + 7] == number % 256;
  }

  /** The packet is an ICMP error of a kind that quotes, and what it quotes has
      this identifier and number. */
  datatype Quote = Quote(h: seq<int>, rest: seq<int>, inner: seq<int>, kind: int, code: int, sum: seq<int>,
                         probe: seq<int>, data: seq<int>)

  predicate Quoting(b: seq<int>, r: Report, q: Quote) {
    && IsIpHeader(q.h) && IsIpHeader(q.inner) && |q.rest| == 6 && |q.sum| == 2 && |q.probe| == 2
    && (r.kind == 3 || r.kind == 4 || r.kind == 5 || r.kind == 11 || r.kind == 12) && 0 <= r.number < 65536
    && b == q.h + ([r.kind, r.code] + q.rest)
            + (q.inner + ([q.kind, q.code] + q.sum + q.probe + [r.number / 256, r.number % 256]) + q.data)
  }

  /** A line is printed exactly for an error of type 3, 4, 5, 11 or 12 that
      quotes an IP and an ICMP header in full, the latter with our identifier
      unless we are verbose, and neither -q nor -Q being given; it names the
      quoted number and the error's type and code. */
  lemma ReportedIff(b: seq<int>, id: seq<int>, flags: Flags, r: Report)
    requires IsBytes(b)
    ensures ErrorReport(b, id, flags) == Some(r)
            <==> !flags.quiet && !flags.quietErrors
                 && exists q :: Quoting(b, r, q) && (q.probe == id || flags.verbose)
  {
    hide Quoting, IsIpHeader;
    if ErrorReport(b, id, flags) == Some(r) {
      var q := Quoted(b, id, flags, r);
    }
    forall q | Quoting(b, r, q) && (q.probe == id || flags.verbose) && !flags.quiet && !flags.quietErrors
      ensures ErrorReport(b, id, flags) == Some(r)
    {
      QuoteReported(b, id, flags, r, q);
    }
  }

  lemma Quoted(b: seq<int>, id: seq<int>, flags: Flags, r: Report) returns (q: Quote)
    requires IsBytes(b) && ErrorReport(b, id, flags) == Some(r)
    ensures Quoting(b, r, q) && (q.probe == id || flags.verbose) && !flags.quiet && !flags.quietErrors
  {
    var n := IpLength(b);
    var quoted := b[n + HEADER..];
    var m := IpLength(quoted);
    q := Quote(b[..n], b[n + 2..n + HEADER], quoted[..m], quoted[m], quoted[m + 1], quoted[m + 2..m + 4],
               quoted[m + 4..m + 6], quoted[m + HEADER..]);
    assert FromNet(quoted[m + 6], quoted[m + 7]) == r.number;
    Cut(b, n);
    CutQuoted(quoted, m);
    assert IsBytes(quoted);
    assert b == q.h + ([r.kind, r.code] + q.rest) + quoted;
  }

  lemma Cut(b: seq<int>, n: nat)
    requires |b| >= n + HEADER
    ensures b == b[..n] + ([b[n], b[n + 1]] + b[n + 2..n + HEADER]) + b[n + HEADER..]
  {
    assert b[n..n + HEADER] == [b[n], b[n + 1]] + b[n + 2..n + HEADER];
    assert b == b[..n] + b[n..n + HEADER] + b[n + HEADER..];
  }

  lemma CutHeader(b: seq<int>, n: nat)
    requires |b| >= n + HEADER
    ensures b[n + 2..n + HEADER] == b[n + 2..n + 4] + b[n + 4..n + 6] + [b[n + 6], b[n + 7]]
  {
    assert b[n + 2..n + HEADER] == b[n + 2..n + 4] + b[n + 4..n + HEADER];
    assert b[n + 4..n + HEADER] == b[n + 4..n + 6] + b[n + 6..n + HEADER];
    assert b[n + 6..n + HEADER] == [b[n + 6], b[n + 7]];
  }

  lemma CutQuoted(b: seq<int>, m: nat)
    requires |b| >= m + HEADER && IsBytes(b)
    ensures var number := FromNet(b[m + 6], b[m + 7]);
            && 0 <= number < 65536
            && b == b[..m] + ([b[m], b[m + 1]] + b[m + 2..m + 4] + b[m + 4..m + 6] + [number / 256, number % 256])
                    + b[m + HEADER..]
  {
    Cut(b, m);
    CutHeader(b, m);
  }

  lemma QuoteReported(b: seq<int>, id: seq<int>, flags: Flags, r: Report, q: Quote)
    requires Quoting(b, r, q) && (q.probe == id || flags.verbose) && !flags.quiet && !flags.quietErrors
    ensures ErrorReport(b, id, flags) == Some(r)
  {
    hide QuotedReport;
    var quoted := q.inner + ([q.kind, q.code] + q.sum + q.probe + [r.number / 256, r.number % 256]) + q.data;
    var n := |q.h|;
    assert b == q.h + ([r.kind, r.code] + q.rest) + quoted;
    assert b[0] == q.h[0] && b[n + HEADER..] == quoted && b[n] == r.kind && b[n + 1] == r.code;
    QuotedPart(r, q, id, flags);
  }

  lemma QuotedPart(r: Report, q: Quote, id: seq<int>, flags: Flags)
    requires IsIpHeader(q.inner) && |q.sum| == 2 && |q.probe| == 2 && 0 <= r.number < 65536
    requires r.kind == 3 || r.kind == 4 || r.kind == 5 || r.kind == 11 || r.kind == 12
    requires (q.probe == id || flags.verbose) && !flags.quiet && !flags.quietErrors
    ensures var quoted := q.inner + ([q.kind, q.code] + q.sum + q.probe + [r.number / 256, r.number % 256]) + q.data;
            QuotedReport(r.kind, r.code, quoted, id, flags) == Some(r)
  {
    var quoted := q.inner + ([q.kind, q.code] + q.sum + q.probe + [r.number / 256, r.number % 256]) + q.data;
    var m := |q.inner|;
    assert quoted[0] == q.inner[0];
    assert quoted[m + 4..m + 6] == q.probe;
    assert quoted[m + 6] == r.number / 256 && quoted[m + 7] == r.number % 256;
  }

  // ---------------------------------------------------------------------
  // The ring

  /** Each slot holds the time of the latest probe with its number, and zero
      if there has been none. */
  predicate RingHolds(ring: seq<real>, log: seq<real>) {
    && |ring| == RING
    && (forall i :: 0 <= i < |log| && |log| <= i + RING ==> ring[i % RING] == log[i])
    && (forall q :: |log| <= q < RING ==> ring[q] == 0.0)
  }

  /** The latest of the first `n` probes with a number. */
  function Latest(n: int, number: int): (i: int)
    requires 0 <= number < n && number < RING
    ensures number <= i < n <= i + RING && i % RING == number
  {
    number + (n - 1 - number) / RING * RING
  }

  lemma LatestIs(ring: seq<real>, log: seq<real>, number: int)
    requires RingHolds(ring, log) && 0 <= number < |log| && number < RING
    ensures ring[number] == log[Latest(|log|, number)]
  {
  }

  /** A new probe takes the slot of the one before it with the same number. */
  lemma RingAdvances(ring: seq<real>, log: seq<real>, stamp: real)
    requires RingHolds(ring, log)
    ensures RingHolds(ring[|log| % RING := stamp], log + [stamp])
  {
    var log' := log + [stamp];
    forall i | 0 <= i < |log'| && |log'| <= i + RING
      ensures ring[|log| % RING := stamp][i % RING] == log'[i]
    {
      if i < |log| {
        DifferentSlots(i, |log|);
      }
    }
  }

  lemma DifferentSlots(i: int, j: int)
    requires 0 <= i < j < i + RING
    ensures i % RING != j % RING
  {
    assert i == i / RING * RING + i % RING && j == j / RING * RING + j % RING;
  }

  /** The slot of probe `i` holds the time of the latest probe with its number,
      which is probe `i` itself exactly as long as probe `i` + 65536 has not
      been built. */
  lemma SlotOfProbe(ring: seq<real>, log: seq<real>, i: int)
    requires RingHolds(ring, log) && 0 <= i < |log|
    ensures ring[i % 65536] == log[Latest(|log|, i % 65536)]
    ensures Latest(|log|, i % 65536) == i <==> |log| <= i + 65536
  {
    LatestIs(ring, log, i % RING);
    var j := Latest(|log|, i % RING);
    if |log| <= i + RING && j != i {
      if i < j {
        DifferentSlots(i, j);
      } else {
        DifferentSlots(j, i);
      }
    }
  }

  // ---------------------------------------------------------------------
  // What a queue of packets adds

  /** The round-trip time that a packet adds, if any. */
  function RttOf(ring: seq<real>, id: seq<int>, a: Arrival): seq<real>
    requires |ring| == RING
  {
    match Replied(a.bytes, id)
    case None => []
    case Some(k) => [a.at - ring[k % RING]]
  }

  function RttsOf(ring: seq<real>, id: seq<int>, queue: seq<Arrival>): seq<real>
    requires |ring| == RING
  {
    if queue == [] then []
    else RttsOf(ring, id, queue[..|queue| - 1]) + RttOf(ring, id, queue[|queue| - 1])
  }

  /** The line that a packet adds, if any. */
  function ReportOf(id: seq<int>, flags: Flags, a: Arrival): seq<Report> {
    match ErrorReport(a.bytes, id, flags)
    case None => []
    case Some(r) => [r]
  }

  function ReportsOf(id: seq<int>, flags: Flags, queue: seq<Arrival>): seq<Report> {
    if queue == [] then []
    else ReportsOf(id, flags, queue[..|queue| - 1]) + ReportOf(id, flags, queue[|queue| - 1])
  }

  lemma NextPacket(ring: seq<real>, id: seq<int>, flags: Flags, queue: seq<Arrival>, i: nat)
    requires |ring| == RING && i < |queue|
    ensures RttsOf(ring, id, queue[..i + 1]) == RttsOf(ring, id, queue[..i]) + RttOf(ring, id, queue[i])
    ensures ReportsOf(id, flags, queue[..i + 1]) == ReportsOf(id, flags, queue[..i]) + ReportOf(id, flags, queue[i])
  {
    hide RttOf, ReportOf;
    assert queue[..i + 1][..i] == queue[..i];
  }

  /** Packets that are not echo replies to us leave the statistics alone. */
  lemma {:induction false} OthersDoNotCount(ring: seq<real>, id: seq<int>, queue: seq<Arrival>)
    requires |ring| == RING && forall k :: 0 <= k < |queue| ==> Replied(queue[k].bytes, id).None?
    ensures RttsOf(ring, id, queue) == []
  {
    if queue != [] {
      OthersDoNotCount(ring, id, queue[..|queue| - 1]);
    }
  }

  /** What is reported is not counted. */
  lemma ReportedIsNoReply(b: seq<int>, id: seq<int>, flags: Flags)
    requires ErrorReport(b, id, flags).Some?
    ensures Replied(b, id).None?
  {
  }

  // ---------------------------------------------------------------------
  // The session

  /** The payload of a request: the pattern over and over, or a copy of the
      clock if it fits and then counting bytes. */
  function Payload(pattern: seq<int>, clock: seq<int>, len: nat): (p: seq<int>)
    requires |clock| == CLOCK_BYTES
    ensures |p| == len
  {
    seq(len, i requires 0 <= i < len =>
      if pattern != [] then pattern[i % |pattern|]
      else if len >= CLOCK_BYTES && i < CLOCK_BYTES then clock[i]
      else i % 256)
  }

  lemma InnerLength(b: seq<int>)
    requires b != []
    ensures IpLength(b) == b[0] % 16 * 4 >= 0
  {
  }

  lemma PayloadIsBytes(pattern: seq<int>, clock: seq<int>, len: nat)
    requires |clock| == CLOCK_BYTES && IsBytes(clock) && IsBytes(pattern)
    ensures IsBytes(Payload(pattern, clock, len))
  {
  }

  /** An echo request, apart from its checksum. */
  predicate IsRequest(p: seq<int>, id: seq<int>, number: int, payload: seq<int>)
    requires 0 <= number < RING
  {
    && |p| == HEADER + |payload| && p[..2] == [8, 0] && p[4..HEADER] == id + NetBytes(number)
    && p[HEADER..] == payload
  }

  lemma HeaderAndPayload(p: seq<int>, header: seq<int>, payload: seq<int>, id: seq<int>, number: int)
    requires |p| >= HEADER && p[..HEADER] == header && p[HEADER..] == payload && 0 <= number < RING
    requires IsBytes(header) && IsBytes(payload) && header[..2] == [8, 0] && header[4..HEADER] == id + NetBytes(number)
    ensures IsBytes(p) && IsRequest(p, id, number, payload)
  {
    assert p[..2] == header[..2] && p[4..HEADER] == header[4..HEADER];
    assert forall i :: 0 <= i < |p| ==> p[i] == if i < HEADER then header[i] else payload[i - HEADER];
  }

  /** The checksum field is no part of it. */
  lemma SameRequest(p: seq<int>, q: seq<int>, id: seq<int>, number: int, payload: seq<int>)
    requires |p| == |q| >= HEADER && p[..2] == q[..2] && p[4..] == q[4..] && 0 <= number < RING
    requires IsRequest(p, id, number, payload)
    ensures IsRequest(q, id, number, payload)
  {
    assert q[4..HEADER] == q[4..][..4] && p[4..HEADER] == p[4..][..4];
    assert q[HEADER..] == q[4..][4..] && p[HEADER..] == p[4..][4..];
  }

  /** How the bytes of a struct timespec say the time. */
  ghost predicate IsClock(clock: real -> seq<int>) {
    forall t :: |clock(t)| == CLOCK_BYTES && IsBytes(clock(t))
  }

  class Session {
    const id: seq<int>
    const flags: Flags
    const clock: real -> seq<int>
    const pkt: array<int>
    const sendTs: array<real>
    var number: int
    var nSent: nat
    var totals: Totals
    var reports: seq<Report>
    /** The times of all probes built, and of all round trips. */
    ghost var log: seq<real>
    ghost var rtts: seq<real>

    ghost predicate Valid()
      reads this, pkt, sendTs
    {
      && |id| == 2 && IsBytes(id) && IsBytes(flags.pattern) && IsClock(clock)
      && HEADER <= pkt.Length <= 65515 && IsBytes(pkt[..])
      && sendTs.Length == RING && RingHolds(sendTs[..], log)
      && number == |log| % RING
      && Summarise(totals, rtts)
    }

    constructor (id: seq<int>, flags: Flags, clock: real -> seq<int>, payloadLen: nat)
      requires |id| == 2 && IsBytes(id) && IsBytes(flags.pattern) && IsClock(clock) && payloadLen <= 65507
      ensures Valid() && fresh(pkt) && fresh(sendTs) && log == [] && rtts == [] && nSent == 0 && reports == []
      ensures this.id == id && this.flags == flags && this.clock == clock && pkt.Length == HEADER + payloadLen
    {
      this.id, this.flags, this.clock := id, flags, clock;
      pkt := new int[HEADER + payloadLen](_ => 0);
      sendTs := new real[RING](_ => 0.0);
      number, nSent, reports := 0, 0, [];
      totals := Totals(0, 0.0, 0.0, 0.0, 0.0);
      log, rtts := [], [];
    }

    /** fill_payload */
    method FillPayload(stamp: real)
      requires pkt.Length >= HEADER && sendTs.Length == RING && 0 <= number < RING && IsClock(clock)
      modifies pkt, sendTs
      ensures sendTs[..] == old(sendTs[..])[number := stamp]
      ensures pkt[..HEADER] == old(pkt[..HEADER])
      ensures pkt[HEADER..] == Payload(flags.pattern, clock(stamp), pkt.Length - HEADER)
      ensures forall i :: 0 <= i < pkt.Length - 8 ==>
                pkt[8 + i] == (if flags.pattern != [] then flags.pattern[i % |flags.pattern|]
                               else if pkt.Length - 8 >= 16 && i < 16 then clock(stamp)[i]
                               else i % 256)
    {
      sendTs[number] := stamp;
      ghost var ring := sendTs[..];
      assert ring == old(sendTs[..])[number := stamp];
      var len := pkt.Length - HEADER;
      ghost var payload := Payload(flags.pattern, clock(stamp), len);
      var i := 0;
      if flags.pattern == [] && len >= CLOCK_BYTES {
        CopyClock(clock(stamp));
        i := CLOCK_BYTES;
      }
      while i < len
        invariant 0 <= i <= len && pkt[..HEADER] == old(pkt[..HEADER])
        invariant i < CLOCK_BYTES && len >= CLOCK_BYTES ==> flags.pattern != []
        invariant sendTs[..] == ring
        invariant pkt[HEADER..HEADER + i] == payload[..i]
      {
        pkt[HEADER + i] := if flags.pattern != [] then flags.pattern[i % |flags.pattern|] else i % 256;
        assert pkt[HEADER..HEADER + i + 1] == pkt[HEADER..HEADER + i] + [payload[i]];
        assert payload[..i + 1] == payload[..i] + [payload[i]];
        i := i + 1;
      }
      assert pkt[HEADER..HEADER + len] == pkt[HEADER..] && payload[..len] == payload;
      assert forall k :: 0 <= k < len ==> pkt[HEADER + k] == pkt[HEADER..][k];
    }

    method CopyClock(now: seq<int>)
      requires pkt.Length >= HEADER + CLOCK_BYTES && |now| == CLOCK_BYTES
      modifies pkt
      ensures pkt[..HEADER] == old(pkt[..HEADER]) && pkt[HEADER..HEADER + CLOCK_BYTES] == now
    {
      var i := 0;
      while i < CLOCK_BYTES
        invariant 0 <= i <= CLOCK_BYTES && pkt[..HEADER] == old(pkt[..HEADER])
        invariant forall k :: 0 <= k < i ==> pkt[HEADER + k] == now[k]
      {
        pkt[HEADER + i] := now[i];
        i := i + 1;
      }
    }

    method WriteHeader()
      requires |id| == 2 && pkt.Length >= HEADER && 0 <= number < RING
      modifies pkt
      ensures pkt[..2] == [8, 0] && pkt[4..HEADER] == id + NetBytes(number)
      ensures IsBytes(old(pkt[..])) && IsBytes(id) ==> IsBytes(pkt[..HEADER])
    {
      var net := NetBytes(number);
      pkt[0], pkt[1], pkt[4], pkt[5], pkt[6], pkt[7] := 8, 0, id[0], id[1], net[0], net[1];
    }

    method StoreChecksum(little: bool)
      requires HEADER <= pkt.Length <= 65515 && IsBytes(pkt[..])
      modifies pkt
      ensures IsBytes(pkt[..]) && C.Checksum(little, pkt[..]) == 0
      ensures pkt[..2] == old(pkt[..2]) && pkt[4..] == old(pkt[4..])
    {
      C.FillChecksum(pkt, little);
    }

    /** send_one up to the packet's completion */
    method BuildRequest(stamp: real, little: bool)
      requires |id| == 2 && IsBytes(id) && IsBytes(flags.pattern) && IsClock(clock)
      requires HEADER <= pkt.Length <= 65515 && IsBytes(pkt[..]) && sendTs.Length == RING && 0 <= number < RING
      modifies pkt, sendTs
      ensures sendTs[..] == old(sendTs[..])[number := stamp]
      ensures IsRequest(pkt[..], id, number, Payload(flags.pattern, clock(stamp), pkt.Length - HEADER))
      ensures IsBytes(pkt[..]) && C.Checksum(little, pkt[..]) == 0
    {
      ghost var payload := Payload(flags.pattern, clock(stamp), pkt.Length - HEADER);
      PayloadIsBytes(flags.pattern, clock(stamp), pkt.Length - HEADER);
      WriteHeader();
      ghost var header := pkt[..HEADER];
      FillPayload(stamp);
      hide Payload, NetBytes, IsRequest, C.Checksum, IsBytes;
      ghost var p := pkt[..];
      HeaderAndPayload(p, header, payload, id, number);
      StoreChecksum(little);
      SameRequest(p, pkt[..], id, number, payload);
    }

    /** send_one with the next sequence number; `ok` tells whether sendto
        takes the packet. */
    method SendOne(stamp: real, little: bool, ok: bool) returns (rc: int)
      requires Valid()
      modifies this`number, this`nSent, this`log, pkt, sendTs
      ensures Valid() && log == old(log) + [stamp]
      ensures nSent == old(nSent) + (if ok then 1 else 0) && rc == if ok then 0 else -1
      ensures IsRequest(pkt[..], id, |old(log)| % RING, Payload(flags.pattern, clock(stamp), pkt.Length - HEADER))
      ensures C.Checksum(little, pkt[..]) == 0
    {
      hide RingHolds, Summarise, Payload, IsRequest, C.Checksum, IsBytes, IsClock;
      BuildRequest(stamp, little);
      RingAdvances(old(sendTs[..]), log, stamp);
      log := log + [stamp];
      number := (number + 1) % RING;
      if !ok {
        return -1;
      }
      nSent := nSent + 1;
      rc := 0;
    }

    /** handle_icmp_error, the ICMP header being at `ihl` */
    method HandleIcmpError(b: seq<int>, ihl: int)
      requires |b| >= IP_HEADER && IP_HEADER <= ihl == IpLength(b) && ihl + HEADER <= |b|
      requires b[ihl] != 0 || b[ihl + 1] != 0
      modifies this`reports
      ensures reports == old(reports) + ReportOf(id, flags, Arrival(b, 0.0))
    {
      assert reports + [] == reports;
      assert ErrorReport(b, id, flags) == QuotedReport(b[ihl], b[ihl + 1], b[ihl + HEADER..], id, flags);
      hide ErrorReport, IpLength;
      var kind := b[ihl];
      if !Quotes(kind) {
        return;
      }
      hide Quotes;
      var quoteOff := ihl + HEADER;
      if |b| < quoteOff + IP_HEADER {
        return;
      }
      var inner := b[quoteOff..];
      InnerLength(inner);
      var innerIhl := inner[0] % 16 * 4;
      if innerIhl < IP_HEADER {
        return;
      }
      if |b| < quoteOff + innerIhl + HEADER {
        return;
      }
      if inner[innerIhl + 4..innerIhl + 6] != id && !flags.verbose {
        return;
      }
      if flags.quiet || flags.quietErrors {
        return;
      }
      reports := reports + [Report(FromNet(inner[innerIhl + 6], inner[innerIhl + 7]), kind, b[ihl + 1])];
    }

    /** One packet of ft_rec_resp. */
    method TakePacket(a: Arrival)
      requires Valid() && IsBytes(a.bytes)
      modifies this`totals, this`rtts, this`reports
      ensures Valid()
      ensures rtts == old(rtts) + RttOf(sendTs[..], id, a)
      ensures reports == old(reports) + ReportOf(id, flags, a)
    {
      hide RingHolds, Summarise, QuotedReport;
      var b := a.bytes;
      assert rtts + [] == rtts && reports + [] == reports;
      if |b| < IP_HEADER {
        return;
      }
      var ihl := b[0] % 16 * 4;
      if ihl < IP_HEADER {
        return;
      }
      if |b| < ihl + HEADER {
        return;
      }
      if b[ihl] != 0 || b[ihl + 1] != 0 {
        HandleIcmpError(b, ihl);
        return;
      }
      if b[ihl + 4..ihl + 6] != id {
        return;
      }
      var k := FromNet(b[ihl + 6], b[ihl + 7]);
      var rtt := a.at - sendTs[k % RING];
      totals := Count(totals, rtt, rtts);
      rtts := rtts + [rtt];
    }

    /** ft_rec_resp: everything queued; `failed` is a real recvfrom failure
        once the queue is empty */
    method FtRecResp(queue: seq<Arrival>, failed: bool) returns (rc: int)
      requires Valid() && forall k :: 0 <= k < |queue| ==> IsBytes(queue[k].bytes)
      modifies this`totals, this`rtts, this`reports
      ensures Valid() && rc == if failed then -1 else 0
      ensures rtts == old(rtts) + RttsOf(sendTs[..], id, queue)
      ensures reports == old(reports) + ReportsOf(id, flags, queue)
    {
      ghost var rtts0, reports0 := rtts, reports;
      assert rtts0 + [] == rtts0 && reports0 + [] == reports0;
      var i := 0;
      while i < |queue|
        invariant i <= |queue| && Valid()
        invariant rtts == rtts0 + RttsOf(sendTs[..], id, queue[..i])
        invariant reports == reports0 + ReportsOf(id, flags, queue[..i])
      {
        NextPacket(sendTs[..], id, flags, queue, i);
        hide RttsOf, ReportsOf, RttOf, ReportOf, RingHolds, Summarise;
        Assoc(rtts0, RttsOf(sendTs[..], id, queue[..i]), RttOf(sendTs[..], id, queue[i]));
        Assoc(reports0, ReportsOf(id, flags, queue[..i]), ReportOf(id, flags, queue[i]));
        TakePacket(queue[i]);
        i := i + 1;
      }
      assert queue[..|queue|] == queue;
      rc := if failed then -1 else 0;
    }

    /** print_stats: in exact arithmetic the variance never needs clamping */
    method PrintStats() returns (loss: real, r: Option<Summary>)
      requires Valid()
      ensures loss == if nSent > 0 then 100.0 * (nSent - |rtts|) as real / nSent as real else 0.0
      ensures rtts == [] ==> r == None
      ensures rtts != [] ==> r == Some(Summary(totals.min, Mean(rtts), totals.max, Variance(rtts)))
      ensures rtts != [] ==> IsMin(totals.min, rtts) && IsMax(totals.max, rtts)
      ensures rtts != [] ==> totals.min <= Mean(rtts) <= totals.max
    {
      loss := 0.0;
      if nSent > 0 {
        loss := 100.0 * (nSent - totals.n) as real / nSent as real;
      }
      if totals.n == 0 {
        return loss, None;
      }
      var mean := totals.sum / totals.n as real;
      var variance := totals.sumSq / totals.n as real - Times(mean, mean);
      VarianceIsSpread(rtts);
      MeanBetween(rtts, totals.min, totals.max);
      if variance < 0.0 {
        variance := 0.0;
      }
      r := Some(Summary(totals.min, mean, totals.max, variance));
    }
  }

  /** The reply to probe `i`: what comes back is the request with another
      type, code and checksum. */
  lemma EchoOfProbe(ring: seq<real>, log: seq<real>, i: int, id: seq<int>, request: seq<int>, payload: seq<int>,
                    h: seq<int>, sum: seq<int>, at: real)
    requires RingHolds(ring, log) && 0 <= i < |log| && |id| == 2
    requires IsRequest(request, id, i % RING, payload) && IsIpHeader(h) && |sum| == 2
    ensures var reply := Arrival(h + ([0, 0] + sum + request[4..]), at);
            && Replied(reply.bytes, id) == Some(i % 65536)
            && RttOf(ring, id, reply) == [at - log[Latest(|log|, i % 65536)]]
            && (|log| <= i + 65536 ==> RttOf(ring, id, reply) == [at - log[i]])
  {
    hide Replied, RingHolds;
    var number := i % RING;
    assert request[4..] == request[4..HEADER] + payload;
    assert h + ([0, 0] + sum + request[4..]) == h + Icmp(0, 0, sum, id, number) + payload;
    ReplyMatches(h, sum, id, number, payload);
    SlotOfProbe(ring, log, i);
  }
}
