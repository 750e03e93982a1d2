/** Passive-mode replies: an address and a port printed by the server, caught
    by the client's reply reader and scanned back. */
module FtpPassive {
  import opened FirstSeen
  import opened Decimals
  import opened FtpReply
  import opened Wrappers

  datatype Mode = Pasv | Epsv | Lpsv

  /** The bytes of an IPv4 or IPv6 address in network order, and a port. */
  datatype Endpoint = Endpoint(host: seq<int>, port: int)

  const COMMA := 44
  const BAR := 124
  const COMPLETE := 2

  predicate IsHost(host: seq<nat>) {
    (|host| == 4 || |host| == 16) && forall i :: 0 <= i < |host| ==> host[i] < 256
  }

  function Bytes(s: string): seq<int> {
    seq(|s|, i requires 0 <= i < |s| => s[i] as int)
  }

  // ---------------------------------------------------------------------
  // The server

  /** IN6_IS_ADDR_V4MAPPED */
  predicate V4Mapped(host: seq<nat>) {
    |host| == 16 && (forall i :: 0 <= i < 10 ==> host[i] == 0) && host[10] == 255 && host[11] == 255
  }

  /** The address that is printed. */
  function Shown(host: seq<nat>): seq<nat> {
    if V4Mapped(host) then host[12..] else host
  }

  /** Numbers printed with %d and commas between them. */
  function Fields(ns: seq<nat>): seq<int>
    requires ns != []
  {
    if |ns| == 1 then Decimal(ns[0]) else Decimal(ns[0]) + [COMMA] + Fields(ns[1..])
  }

  /** The two bytes of a port in network order. */
  function PortBytes(port: nat): seq<nat> {
    [port / 256 % 256, port % 256]
  }

  function PassiveCode(mode: Mode, host: seq<nat>): nat {
    if mode.Epsv? then 229 else if mode.Lpsv? || |Shown(host)| == 16 then 228 else 227
  }

  /** The words before the first digit. */
  function Intro(mode: Mode, host: seq<nat>): seq<int> {
    if mode.Epsv? then Bytes("Entering Extended Passive Mode (|||")
    else if mode.Lpsv? || |Shown(host)| == 16 then Bytes("Entering Long Passive Mode (")
    else Bytes("Entering Passive Mode (")
  }

  /** The numbers printed for an address and a port. */
  function Numbers(mode: Mode, host: seq<nat>, port: nat): (ns: seq<nat>)
    ensures ns != []
  {
    if mode.Epsv? then [port]
    else if |Shown(host)| == 16 then [6, 16] + Shown(host) + [2] + PortBytes(port)
    else if mode.Lpsv? then [4, 4] + Shown(host) + [2] + PortBytes(port)
    else Shown(host) + PortBytes(port)
  }

  /** What stands between the first digit and the closing parenthesis. */
  function Body(mode: Mode, host: seq<nat>, port: nat): seq<int> {
    Fields(Numbers(mode, host, port)) + if mode.Epsv? then [BAR] else []
  }

  function PassiveText(mode: Mode, host: seq<nat>, port: nat): seq<int> {
    Intro(mode, host) + Body(mode, host, port) + [CLOSE]
  }

  /** passive, once the data socket listens at `host` and `port` */
  method Passive(server: Server, mode: Mode, host: seq<nat>, port: nat)
    requires IsHost(host) && port < 65536
    modifies server.out
    ensures server.out.bytes
            == old(server.out.bytes) + LastBytes(PassiveCode(mode, host), PassiveText(mode, host, port))
  {
    if mode == Epsv {
      server.SendReply(229, Bytes("Entering Extended Passive Mode (|||") + (Decimal(port) + [BAR]) + [CLOSE]);
      return;
    }
    var a := host;
    var p := PortBytes(port);
    if V4Mapped(host) {
      a := a[12..];
    } else if |host| == 16 {
      var v6 := Fields([6, 16] + a + [2] + p) + [];
      server.SendReply(228, Bytes("Entering Long Passive Mode (") + v6 + [CLOSE]);
      return;
    }
    if mode == Lpsv {
      var v4 := Fields([4, 4] + a + [2] + p) + [];
      server.SendReply(228, Bytes("Entering Long Passive Mode (") + v4 + [CLOSE]);
    } else {
      server.SendReply(227, Bytes("Entering Passive Mode (") + (Fields(a + p) + []) + [CLOSE]);
    }
  }

  // ---------------------------------------------------------------------
  // The client

  /** The C string at the start of a buffer. */
  function CString(s: seq<int>): seq<int> {
    if s == [] || s[0] == 0 then [] else [s[0]] + CString(s[1..])
  }

  lemma {:induction false} CStringEnds(s: seq<int>, k: nat)
    requires k < |s| && s[k] == 0 && forall i :: 0 <= i < k ==> s[i] != 0
    ensures CString(s) == s[..k]
  {
    if k > 0 {
      CStringEnds(s[1..], k - 1);
      assert s[..k] == [s[0]] + s[1..][..k - 1];
    }
  }

  /** sscanf for %u `k` times with commas between: the numbers assigned. */
  function ScanFields(s: seq<int>, k: nat): (ns: seq<int>)
    ensures |ns| <= k
    decreases k
  {
    var d := DigitRun(s);
    if k == 0 || d == 0 then []
    else
      [Value(s[..d])] + if d < |s| && s[d] == COMMA then ScanFields(s[d + 1..], k - 1) else []
  }

  /** Each number's lowest byte. */
  function Masked(ns: seq<int>): seq<int> {
    seq(|ns|, i requires 0 <= i < |ns| => ns[i] % 256)
  }

  /** Keeping the lowest byte of each number. */
  method MaskBytes(ns: seq<int>) returns (host: seq<int>)
    ensures host == Masked(ns)
  {
    var h := new int[|ns|](i requires 0 <= i < |ns| => ns[i]);
    for j := 0 to h.Length
      invariant forall k :: 0 <= k < j ==> h[k] == ns[k] % 256
      invariant forall k :: j <= k < h.Length ==> h[k] == ns[k]
    {
      h[j] := h[j] % 256;
    }
    host := h[..];
  }

  function PortOf(p0: int, p1: int): int {
    p0 % 256 * 256 + p1 % 256
  }

  function EpsvAddress(peer: seq<int>, text: seq<int>): Option<Endpoint> {
    var ns := ScanFields(text, 1);
    if |ns| == 1 then Some(Endpoint(peer, ns[0] % 65536)) else None
  }

  function PasvAddress(ns: seq<int>): Option<Endpoint> {
    if |ns| == 6 then Some(Endpoint(Masked(ns[..4]), PortOf(ns[4], ns[5]))) else None
  }

  /** RFC 1639: the family, the address with its length, the port with its. */
  function LpsvAddress(len: nat, ns: seq<int>): Option<Endpoint> {
    if |ns| == len + 5 && ns[0] == (if len == 4 then 4 else 6) && ns[1] == len && ns[len + 2] == 2 then
      Some(Endpoint(Masked(ns[2..len + 2]), PortOf(ns[len + 3], ns[len + 4])))
    else None
  }

  /** Where the client will connect to, `peer` being the server's address on
      the control connection. */
  function DataAddress(mode: Mode, peer: seq<int>, text: seq<int>): Option<Endpoint> {
    if mode.Epsv? then EpsvAddress(peer, text)
    else if mode.Lpsv? then LpsvAddress(|peer|, ScanFields(text, |peer| + 5))
    else if |peer| == 4 then PasvAddress(ScanFields(text, 6))
    else None
  }

  /** A reply gives an address exactly when it has all the numbers that its
      form calls for and the long form names the family of the connection and
      the lengths of an address and of a port.  Of each number only the lowest
      byte counts, and of the port of an extended reply the lowest two. */
  lemma AddressIff(mode: Mode, peer: seq<int>, text: seq<int>)
    ensures mode.Epsv? ==>
              var ns := ScanFields(text, 1);
              DataAddress(mode, peer, text) == if |ns| == 1 then Some(Endpoint(peer, ns[0] % 65536)) else None
    ensures mode.Pasv? ==>
              var ns := ScanFields(text, 6);
              DataAddress(mode, peer, text)
              == if |peer| != 4 || |ns| != 6 then None
                 else Some(Endpoint([ns[0] % 256, ns[1] % 256, ns[2] % 256, ns[3] % 256],
                                    256 * (ns[4] % 256) + ns[5] % 256))
    ensures mode.Lpsv? ==>
              var n, ns := |peer|, ScanFields(text, |peer| + 5);
              DataAddress(mode, peer, text)
              == if |ns| != n + 5 || ns[0] != (if n == 4 then 4 else 6) || ns[1] != n || ns[n + 2] != 2 then None
                 else Some(Endpoint(seq(n, i requires 0 <= i < n => ns[i + 2] % 256),
                                    256 * (ns[n + 3] % 256) + ns[n + 4] % 256))
  {
    hide ScanFields;
    if mode.Pasv? {
      var ns := ScanFields(text, 6);
      if |ns| == 6 {
        MaskedFour(ns[..4]);
      }
    } else if mode.Lpsv? {
      var n, ns := |peer|, ScanFields(text, |peer| + 5);
      if |ns| == n + 5 {
        assert Masked(ns[2..n + 2]) == seq(n, i requires 0 <= i < n => ns[i + 2] % 256);
      }
    }
  }

  lemma MaskedFour(ns: seq<int>)
    requires |ns| == 4
    ensures Masked(ns) == [ns[0] % 256, ns[1] % 256, ns[2] % 256, ns[3] % 256]
  {
  }

  method ReadPasv(text: seq<int>) returns (r: Option<Endpoint>)
    ensures r == PasvAddress(ScanFields(text, 6))
  {
    var ns := ScanFields(text, 6);
    hide ScanFields, Masked, PortOf;
    if |ns| != 6 {
      return None;
    }
    var a0, a1, a2, a3, p0, p1 := ns[0], ns[1], ns[2], ns[3], ns[4], ns[5];
    MaskedFour(ns[..4]);
    r := Some(Endpoint([a0 % 256, a1 % 256, a2 % 256, a3 % 256], PortOf(p0, p1)));
  }

  method ReadLpsv(len: nat, text: seq<int>) returns (r: Option<Endpoint>)
    ensures r == LpsvAddress(len, ScanFields(text, len + 5))
  {
    var ns := ScanFields(text, len + 5);
    hide ScanFields, Masked, PortOf;
    if |ns| != len + 5 || ns[0] != (if len == 4 then 4 else 6) || ns[1] != len || ns[len + 2] != 2 {
      return None;
    }
    var h := MaskBytes(ns[2..len + 2]);
    var p0, p1 := ns[len + 3], ns[len + 4];
    r := Some(Endpoint(h, PortOf(p0, p1)));
  }

  /** initconn, reading the captured text of a completed passive reply */
  method ReadAddress(mode: Mode, peer: seq<int>, pasv: array<int>) returns (r: Option<Endpoint>)
    ensures r == DataAddress(mode, peer, CString(pasv[..]))
  {
    var text := CString(pasv[..]);
    if mode == Epsv {
      var ns := ScanFields(text, 1);
      if |ns| != 1 {
        return None;
      }
      r := Some(Endpoint(peer, ns[0] % 65536));
    } else if mode == Lpsv {
      r := ReadLpsv(|peer|, text);
    } else if |peer| == 4 {
      r := ReadPasv(text);
    } else {
      r := None;
    }
  }

  // ---------------------------------------------------------------------
  // Numbers are scanned back exactly when none of their text is cut off

  /** The first of several numbers. */
  lemma FirstScansBack(n: nat, later: seq<int>, k: nat)
    requires k > 0
    ensures ScanFields(Decimal(n) + [COMMA] + later, k) == [n] + ScanFields(later, k - 1)
  {
    var s := Decimal(n) + [COMMA] + later;
    hide Decimal, Value;
    Assoc(Decimal(n), [COMMA], later);
    DecimalScansBack(n, [COMMA] + later);
    assert s[|Decimal(n)| + 1..] == later;
  }

  lemma LastScansBack(n: nat, rest: seq<int>)
    requires rest == [] || (!IsDigit(rest[0]) && rest[0] != COMMA)
    ensures ScanFields(Decimal(n) + rest, 1) == [n]
  {
    DecimalScansBack(n, rest);
  }

  lemma {:induction false} FieldsScanBack(ns: seq<nat>, rest: seq<int>)
    requires ns != [] && (rest == [] || (!IsDigit(rest[0]) && rest[0] != COMMA))
    ensures ScanFields(Fields(ns) + rest, |ns|) == ns
  {
    hide ScanFields;
    if |ns| == 1 {
      LastScansBack(ns[0], rest);
    } else {
      var d, later := Decimal(ns[0]), Fields(ns[1..]);
      assert Fields(ns) == d + [COMMA] + later;
      hide Fields;
      FieldsScanBack(ns[1..], rest);
      FirstScansBack(ns[0], later + rest, |ns|);
      Assoc(d + [COMMA], later, rest);
      assert [ns[0]] + ns[1..] == ns;
    }
  }

  /** No text is shorter than the printed number. */
  lemma {:induction false} DecimalIsShortest(digits: seq<int>)
    requires digits != [] && forall i :: 0 <= i < |digits| ==> IsDigit(digits[i])
    ensures Value(digits) >= 0 && |Decimal(Value(digits))| <= |digits|
    decreases |digits|
  {
    var front := digits[..|digits| - 1];
    if front != [] {
      DecimalIsShortest(front);
      assert Value(digits) / 10 == Value(front);
    } else {
      assert Value(front) == 0;
    }
  }

  lemma {:induction false} FieldsAreShortest(ns: seq<nat>, text: seq<int>)
    requires ns != [] && ScanFields(text, |ns|) == ns
    ensures |Fields(ns)| <= |text|
    decreases |ns|
  {
    var d := DigitRun(text);
    DecimalIsShortest(text[..d]);
    assert Value(text[..d]) == ns[0];
    if |ns| > 1 {
      assert ScanFields(text[d + 1..], |ns| - 1) == ns[1..];
      FieldsAreShortest(ns[1..], text[d + 1..]);
    }
  }

  lemma {:induction false} FieldsPlain(ns: seq<nat>)
    requires ns != []
    ensures Fields(ns) != [] && IsDigit(Fields(ns)[0])
    ensures forall i :: 0 <= i < |Fields(ns)| ==> IsDigit(Fields(ns)[i]) || Fields(ns)[i] == COMMA
  {
    if |ns| > 1 {
      FieldsPlain(ns[1..]);
    }
  }

  /** Bytes take three digits at most. */
  lemma {:induction false} FieldsLength(ns: seq<nat>)
    requires ns != [] && forall i :: 0 <= i < |ns| ==> ns[i] < 256
    ensures |Fields(ns)| <= 4 * |ns| - 1
  {
    assert Power10(1) == 10 && Power10(2) == 100 && Power10(3) == 1000;
    DecimalLength(ns[0], 1000, 3);
    if |ns| > 1 {
      FieldsLength(ns[1..]);
    }
  }

  // ---------------------------------------------------------------------
  // What the reply reader captures

  /** The state after the code of a passive reply and the blank. */
  lemma ScanPassiveCode(code: nat)
    requires code == 227 || code == 228 || code == 229
    ensures ScanChars(StartLine(Blank), Decimal(code) + [SPACE]) == Scan(4, 2, code, 0, 1, [], [])
  {
    ThreeDigits(code);
    var s1 := ScanChar(StartLine(Blank), 50);
    var s2 := ScanChar(s1, 50);
    var s3 := ScanChar(s2, 48 + code % 10);
    assert s1 == Scan(1, 2, 2, 0, 0, [], []) && s2 == Scan(2, 2, 22, 0, 0, [], []);
    assert s3 == Scan(3, 2, code, 0, 1, [], []) && ScanChar(s3, SPACE) == Scan(4, 2, code, 0, 1, [], []);
    assert Decimal(code) + [SPACE] == [50, 50, 48 + code % 10, SPACE];
    ScanFour(StartLine(Blank), 50, 50, 48 + code % 10, SPACE);
  }

  predicate NoDigits(text: seq<int>) {
    forall i :: 0 <= i < |text| ==> !IsDigit(text[i])
  }

  lemma {:induction false} ScanIntro(st: Scan, text: seq<int>)
    requires st.dig >= 4 && st.n != 0 && st.pflag == 1 && NoDigits(text)
    ensures var r := ScanChars(st, text);
            r.dig >= 4 && r.n != 0 && r.pflag == 1 && r.captured == st.captured
    decreases |text|
  {
    if text != [] {
      ScanIntro(ScanChar(st, text[0]), text[1..]);
    }
  }

  function Cut(text: seq<int>): seq<int> {
    if |text| < PASV_SIZE then text else text[..PASV_SIZE - 1]
  }

  lemma {:induction false} ScanBody(st: Scan, text: seq<int>)
    requires st.dig >= 4 && st.n != 0 && (st.pflag == 2 || (st.pflag == 1 && text != [] && IsDigit(text[0])))
    requires CR !in text && CLOSE !in text && |st.captured| < PASV_SIZE
    ensures var r := ScanChars(st, text);
            r.dig >= 4 && r.n != 0 && r.pflag == 2 && r.captured == Cut(st.captured + text)
    decreases |text|
  {
    hide ScanChar, ScanChars, Cut;
    BodyStep(st, text);
    if text != [] {
      var next := ScanChar(st, text[0]);
      BodyChar(st, text[0]);
      CutIsShort(st.captured + [text[0]]);
      CutTwice(st.captured, text[0], text[1..]);
      assert text == [text[0]] + text[1..];
      ScanBody(next, text[1..]);
    }
  }

  lemma BodyStep(st: Scan, text: seq<int>)
    ensures text == [] ==> ScanChars(st, text) == st
    ensures text == [] && |st.captured| < PASV_SIZE ==> Cut(st.captured + text) == st.captured
    ensures text != [] ==> ScanChars(st, text) == ScanChars(ScanChar(st, text[0]), text[1..])
  {
    hide ScanChar;
    assert st.captured + [] == st.captured;
  }

  lemma CutIsShort(text: seq<int>)
    ensures |Cut(text)| < PASV_SIZE
  {
  }

  lemma BodyChar(st: Scan, c: int)
    requires st.dig >= 4 && st.n != 0 && (st.pflag == 2 || (st.pflag == 1 && IsDigit(c)))
    requires c != CR && c != CLOSE && |st.captured| < PASV_SIZE
    ensures var next := ScanChar(st, c);
            next.pflag == 2 && next.dig >= 4 && next.n != 0 && next.captured == Cut(st.captured + [c])
  {
  }

  lemma CutTwice(captured: seq<int>, c: int, rest: seq<int>)
    ensures Cut(Cut(captured + [c]) + rest) == Cut(captured + ([c] + rest))
  {
  }

  lemma ScanClose(st: Scan)
    requires st.dig >= 4 && st.pflag == 2
    ensures var r := ScanChars(st, [CLOSE, CR]); r.pflag == 3 && r.captured == st.captured
  {
    var closed := ScanChar(st, CLOSE);
    assert [CLOSE, CR][1..] == [CR] && [CR][1..] == [];
    assert ScanChars(closed, [CR]) == ScanChar(closed, CR);
    assert ScanChars(st, [CLOSE, CR]) == ScanChars(closed, [CR]);
  }

  lemma SameReply(head: seq<int>, intro: seq<int>, body: seq<int>)
    ensures head + (intro + body + [CLOSE]) + [CR] == head + (intro + (body + [CLOSE, CR]))
  {
  }

  /** A parenthesised body that starts with a digit is captured up to its
      closing parenthesis, or up to 63 characters. */
  lemma CaptureBody(code: nat, intro: seq<int>, body: seq<int>)
    requires code == 227 || code == 228 || code == 229
    requires NoDigits(intro) && CR !in body && CLOSE !in body && body != [] && IsDigit(body[0])
    ensures var r := ScanChars(StartLine(Blank), Decimal(code) + [SPACE] + (intro + body + [CLOSE]) + [CR]);
            r.pflag == 3 && r.captured == Cut(body)
  {
    var head := Decimal(code) + [SPACE];
    var s1 := ScanChars(StartLine(Blank), head);
    ScanPassiveCode(code);
    ScanIntro(s1, intro);
    var s2 := ScanChars(s1, intro);
    ScanBody(s2, body);
    ScanClose(ScanChars(s2, body));
    assert [] + body == body;
    hide ScanChars, ScanChar;
    ScanCharsAppend(s2, body, [CLOSE, CR]);
    ScanCharsAppend(s1, intro, body + [CLOSE, CR]);
    ScanCharsAppend(StartLine(Blank), head, intro + (body + [CLOSE, CR]));
    SameReply(head, intro, body);
  }

  // ---------------------------------------------------------------------
  // The round trip

  lemma {:induction false} ValueGrows(digits: seq<int>, k: nat)
    requires k <= |digits| && forall i :: 0 <= i < |digits| ==> IsDigit(digits[i])
    ensures 0 <= Value(digits[..k]) <= Value(digits)
    decreases |digits|
  {
    assert digits[..|digits|] == digits;
    if digits != [] {
      var front := digits[..|digits| - 1];
      if k < |digits| {
        ValueGrows(front, k);
        assert front[..k] == digits[..k];
      } else {
        ValueGrows(front, |front|);
      }
    }
  }

  /** The first number, of which not all may be there. */
  lemma CutNumber(n: nat, t: seq<int>, k: nat)
    requires k > 0 && |t| <= |Decimal(n)| && t == Decimal(n)[..|t|]
    ensures var ms := ScanFields(t, k); |ms| <= 1 && (ms != [] ==> 0 <= ms[0] <= n)
  {
    ValueGrows(Decimal(n), |t|);
    ValueOfDecimal(n);
    assert forall i :: 0 <= i < |t| ==> IsDigit(t[i]);
    assert DigitRun(t) == |t| && t[..|t|] == t;
  }

  lemma CutAfter(a: seq<int>, c: int, b: seq<int>, n: nat)
    requires n <= |b|
    ensures (a + [c] + b)[..|a| + 1 + n] == a + [c] + b[..n]
  {
  }

  lemma CutFields(ns: seq<nat>, t: seq<int>) returns (later: seq<int>)
    requires ns != [] && |Decimal(ns[0])| < |t| <= |Fields(ns)| && t == Fields(ns)[..|t|]
    ensures |ns| > 1 && t == Decimal(ns[0]) + [COMMA] + later
    ensures |later| <= |Fields(ns[1..])| && later == Fields(ns[1..])[..|later|]
  {
    var d, rest, n := Decimal(ns[0]), Fields(ns[1..]), |t| - |Decimal(ns[0])| - 1;
    assert Fields(ns) == d + [COMMA] + rest;
    hide Fields;
    later := rest[..n];
    CutAfter(d, COMMA, rest, n);
  }

  predicate Below(ms: seq<int>, ns: seq<nat>) {
    |ms| <= |ns| && forall i :: 0 <= i < |ms| ==> 0 <= ms[i] <= ns[i]
  }

  lemma BelowNext(ms: seq<int>, ns: seq<nat>)
    requires ns != [] && Below(ms, ns[1..])
    ensures Below([ns[0]] + ms, ns)
  {
  }

  lemma FieldsStart(ns: seq<nat>)
    requires ns != []
    ensures Decimal(ns[0]) <= Fields(ns)
  {
    hide Decimal;
  }

  lemma BelowOne(t: seq<int>, ns: seq<nat>)
    requires ns != [] && var ms := ScanFields(t, |ns|); |ms| <= 1 && (ms != [] ==> 0 <= ms[0] <= ns[0])
    ensures Below(ScanFields(t, |ns|), ns)
  {
    hide ScanFields;
  }

  /** Cutting the text off never makes a number larger. */
  lemma {:induction false} PrefixBelow(ns: seq<nat>, t: seq<int>)
    requires ns != [] && |t| <= |Fields(ns)| && t == Fields(ns)[..|t|]
    ensures Below(ScanFields(t, |ns|), ns)
    decreases |ns|
  {
    hide Fields, ScanFields, Below, Decimal;
    if |t| <= |Decimal(ns[0])| {
      FieldsStart(ns);
      assert t == Decimal(ns[0])[..|t|];
      CutNumber(ns[0], t, |ns|);
      BelowOne(t, ns);
    } else {
      var later := CutFields(ns, t);
      PrefixBelow(ns[1..], later);
      FirstScansBack(ns[0], later, |ns|);
      BelowNext(ScanFields(later, |ns| - 1), ns);
    }
  }

  /** The numbers of a passive reply are read back, and only if all of the
      text was caught. */
  lemma NumbersScanBack(ns: seq<nat>)
    requires ns != [] && forall i :: 0 <= i < |ns| ==> ns[i] < 256
    ensures var ms := ScanFields(Cut(Fields(ns)), |ns|);
            && (|Fields(ns)| < PASV_SIZE ==> ms == ns)
            && (|Fields(ns)| >= PASV_SIZE ==> ms != ns)
            && Below(ms, ns)
  {
    var t := Cut(Fields(ns));
    PrefixBelow(ns, t);
    if |Fields(ns)| < PASV_SIZE {
      FieldsScanBack(ns, []);
      assert Fields(ns) + [] == Fields(ns);
    } else if ScanFields(t, |ns|) == ns {
      FieldsAreShortest(ns, t);
    }
  }

  /** Free of digits and control characters. */
  predicate Wordy(s: string) {
    forall i :: 0 <= i < |s| ==> ' ' <= s[i] <= '/' || 'A' <= s[i] <= '}'
  }

  lemma WordyIsPlain(s: string)
    requires Wordy(s)
    ensures NoDigits(Bytes(s)) && Plain(Bytes(s))
  {
    assert forall i :: 0 <= i < |s| ==> Bytes(s)[i] == s[i] as int;
  }

  lemma IntroIsPlain(mode: Mode, host: seq<nat>)
    ensures NoDigits(Intro(mode, host)) && Plain(Intro(mode, host))
  {
    hide NoDigits, Plain, Bytes, Wordy;
    WordsAreWordy();
    if mode.Epsv? {
      WordyIsPlain("Entering Extended Passive Mode (|||");
    } else if mode.Lpsv? || |Shown(host)| == 16 {
      WordyIsPlain("Entering Long Passive Mode (");
    } else {
      WordyIsPlain("Entering Passive Mode (");
    }
  }

  lemma WordsAreWordy()
    ensures Wordy("Entering Extended Passive Mode (|||")
    ensures Wordy("Entering Long Passive Mode (")
    ensures Wordy("Entering Passive Mode (")
  {
  }

  lemma BodyIsPlain(mode: Mode, host: seq<nat>, port: nat)
    ensures var b := Body(mode, host, port);
            b != [] && IsDigit(b[0]) && forall i :: 0 <= i < |b| ==> IsDigit(b[i]) || b[i] == COMMA || b[i] == BAR
  {
    FieldsPlain(Numbers(mode, host, port));
  }

  lemma TextIsPlain(mode: Mode, host: seq<nat>, port: nat)
    ensures Plain(PassiveText(mode, host, port))
  {
    BodyIsPlain(mode, host, port);
    IntroIsPlain(mode, host);
    hide Body, Intro;
  }

  /** The bytes of the numbers of a reply. */
  lemma NumbersAreBytes(mode: Mode, host: seq<nat>, port: nat)
    requires IsHost(host) && port < 65536 && !mode.Epsv?
    ensures forall i :: 0 <= i < |Numbers(mode, host, port)| ==> Numbers(mode, host, port)[i] < 256
  {
  }

  /** Only a long passive reply with an IPv6 address can be too long for the
      client's buffer. */
  lemma ShortBodies(mode: Mode, host: seq<nat>, port: nat)
    requires IsHost(host) && port < 65536 && (mode.Epsv? || |Shown(host)| == 4)
    ensures |Body(mode, host, port)| <= 35
  {
    if mode.Epsv? {
      assert Power10(1) == 10 && Power10(2) == 100 && Power10(3) == 1000 && Power10(4) == 10000;
      DecimalLength(port, 100000, 5);
    } else {
      NumbersAreBytes(mode, host, port);
      FieldsLength(Numbers(mode, host, port));
    }
  }

  /** The address the client is to use: with an extended reply only the port
      is told. */
  function Told(mode: Mode, peer: seq<nat>, host: seq<nat>): seq<nat> {
    if mode.Epsv? then peer else Shown(host)
  }

  lemma PortBytesBack(p0: int, p1: int, port: nat)
    requires 0 <= p0 < 256 && 0 <= p1 < 256 && port < 65536
    ensures PortOf(p0, p1) == port <==> [p0, p1] == PortBytes(port)
  {
    assert [p0, p1] == PortBytes(port) <==> p0 == PortBytes(port)[0] && p1 == PortBytes(port)[1];
  }

  lemma MaskedBytes(ms: seq<int>)
    requires forall i :: 0 <= i < |ms| ==> 0 <= ms[i] < 256
    ensures Masked(ms) == ms
  {
  }

  /** Six bytes stand for exactly one IPv4 address and port. */
  lemma PasvExact(ms: seq<int>, h: seq<nat>, port: nat)
    requires |h| == 4 && port < 65536 && forall i :: 0 <= i < |ms| ==> 0 <= ms[i] < 256
    ensures PasvAddress(ms) == Some(Endpoint(h, port)) <==> ms == h + PortBytes(port)
  {
    if |ms| == 6 {
      MaskedBytes(ms[..4]);
      PortBytesBack(ms[4], ms[5], port);
      hide PortOf, Masked;
      assert ms == ms[..4] + [ms[4], ms[5]];
      assert ms == h + PortBytes(port) ==> ms[..4] == h && [ms[4], ms[5]] == PortBytes(port);
    }
  }

  /** The numbers of a long passive reply. */
  function LongNumbers(h: seq<nat>, port: nat): seq<nat> {
    [if |h| == 4 then 4 else 6, |h|] + h + [2] + PortBytes(port)
  }

  lemma LpsvExact(ms: seq<int>, h: seq<nat>, port: nat)
    requires IsHost(h) && port < 65536 && forall i :: 0 <= i < |ms| ==> 0 <= ms[i] < 256
    ensures LpsvAddress(|h|, ms) == Some(Endpoint(h, port)) <==> ms == LongNumbers(h, port)
  {
    var n := |h|;
    if |ms| == n + 5 {
      var p := [ms[n + 3], ms[n + 4]];
      MaskedBytes(ms[2..n + 2]);
      PortBytesBack(p[0], p[1], port);
      hide PortOf, Masked, PortBytes;
      assert ms == [ms[0], ms[1]] + ms[2..n + 2] + [ms[n + 2]] + p;
      if ms == LongNumbers(h, port) {
        assert ms[0] == (if n == 4 then 4 else 6) && ms[1] == n && ms[n + 2] == 2;
        assert ms[2..n + 2] == h && p == PortBytes(port);
      }
    }
  }

  lemma NumbersOfAddress(mode: Mode, host: seq<nat>, port: nat)
    requires IsHost(host) && port < 65536 && !mode.Epsv?
    ensures var ns := Numbers(mode, host, port);
            && Body(mode, host, port) == Fields(ns) && IsHost(Shown(host))
            && (mode.Lpsv? ==> ns == LongNumbers(Shown(host), port) && |ns| == |Shown(host)| + 5)
            && (mode.Pasv? && |Shown(host)| == 4 ==> ns == Shown(host) + PortBytes(port) && |ns| == 6)
            && forall i :: 0 <= i < |ns| ==> ns[i] < 256
  {
    NumbersAreBytes(mode, host, port);
  }

  /** Reading the captured text gives back the address and port exactly when
      all of the text was caught. */
  lemma AddressScansBack(mode: Mode, peer: seq<nat>, host: seq<nat>, port: nat)
    requires IsHost(host) && port < 65536 && (mode.Pasv? ==> |Shown(host)| == 4)
    requires mode.Epsv? || |peer| == |Shown(host)|
    ensures DataAddress(mode, peer, Cut(Body(mode, host, port))) == Some(Endpoint(Told(mode, peer, host), port))
            <==> |Body(mode, host, port)| < 64
  {
    var ns := Numbers(mode, host, port);
    if mode.Epsv? {
      ShortBodies(mode, host, port);
      FieldsScanBack(ns, [BAR]);
    } else {
      var ms := ScanFields(Cut(Fields(ns)), |ns|);
      NumbersOfAddress(mode, host, port);
      NumbersScanBack(ns);
      assert forall i :: 0 <= i < |ms| ==> 0 <= ms[i] < 256;
      hide Fields, ScanFields, Cut, Numbers, Body, IsHost, LpsvAddress, PasvAddress, LongNumbers, PortBytes;
      if mode.Lpsv? {
        LpsvExact(ms, Shown(host), port);
      } else {
        PasvExact(ms, Shown(host), port);
      }
    }
  }

  lemma PartsOfText(mode: Mode, host: seq<nat>, port: nat)
    ensures PassiveText(mode, host, port) == Intro(mode, host) + Body(mode, host, port) + [CLOSE]
    ensures 227 <= PassiveCode(mode, host) <= 229 && Plain(PassiveText(mode, host, port)) && NoDigits(Intro(mode, host))
    ensures var body := Body(mode, host, port);
            CR !in body && CLOSE !in body && 0 !in body && 0 !in Cut(body) && body != [] && IsDigit(body[0])
  {
    IntroIsPlain(mode, host);
    BodyIsPlain(mode, host, port);
    TextIsPlain(mode, host, port);
    hide Body, Intro, Plain, NoDigits;
    var body := Body(mode, host, port);
    assert 0 !in body;
    assert forall i :: 0 <= i < |Cut(body)| ==> Cut(body)[i] == body[i];
  }

  /** The client reads a passive reply, catching its body. */
  lemma PassiveReplyCaught(mode: Mode, host: seq<nat>, port: nat, s: seq<int>, i: nat)
    requires StandsAt(s, i, LastBytes(PassiveCode(mode, host), PassiveText(mode, host, port)))
    ensures var o := ScanReply(Blank, 0, s, i);
            && o.Got? && o.n == COMPLETE && o.code == PassiveCode(mode, host)
            && o.next == i + |LastBytes(PassiveCode(mode, host), PassiveText(mode, host, port))|
            && o.st.pflag == 3 && o.st.captured == Cut(Body(mode, host, port)) && 0 !in o.st.captured
  {
    hide Body, Intro, PassiveCode, PassiveText, LastBytes, NoDigits, Plain, ScanLine, ScanChars, ScanReply;
    var code, text := PassiveCode(mode, host), PassiveText(mode, host, port);
    var intro, body := Intro(mode, host), Body(mode, host, port);
    PartsOfText(mode, host, port);
    ReplyStep(Blank, 0, s, i);
    ScanLastLine(Blank, s, i, code, text);
    CaptureBody(code, intro, body);
  }

  /** Passive replies survive the trip: for every address and port, what the
      server prints is read, caught and scanned back to the same address and
      port (the same port for an extended reply) exactly when its body has
      fewer than 64 characters, which all but long IPv6 replies have. */
  lemma PassiveRoundTrip(mode: Mode, peer: seq<nat>, host: seq<nat>, port: nat, s: seq<int>, i: nat)
    requires IsHost(host) && port < 65536 && (mode.Pasv? ==> |Shown(host)| == 4)
    requires mode.Epsv? || |peer| == |Shown(host)|
    requires StandsAt(s, i, LastBytes(PassiveCode(mode, host), PassiveText(mode, host, port)))
    ensures ScanReply(Blank, 0, s, i).Got?
    ensures var o := ScanReply(Blank, 0, s, i);
            && o.n == COMPLETE && o.st.pflag == 3 && 0 !in o.st.captured
            && (DataAddress(mode, peer, o.st.captured) == Some(Endpoint(Told(mode, peer, host), port))
                <==> |Body(mode, host, port)| < 64)
    ensures mode.Epsv? || |Shown(host)| == 4 ==> |Body(mode, host, port)| < 64
  {
    PassiveReplyCaught(mode, host, port, s, i);
    AddressScansBack(mode, peer, host, port);
    if mode.Epsv? || |Shown(host)| == 4 {
      ShortBodies(mode, host, port);
    }
  }

  lemma {:induction false} FieldsJoined(a: seq<nat>, b: seq<nat>)
    requires a != [] && b != []
    ensures |Fields(a + b)| == |Fields(a)| + 1 + |Fields(b)|
  {
    if |a| == 1 {
      assert (a + b)[1..] == b;
    } else {
      FieldsJoined(a[1..], b);
      assert (a + b)[1..] == a[1..] + b;
    }
  }

  lemma {:induction false} WideFields(ns: seq<nat>)
    requires ns != [] && forall i :: 0 <= i < |ns| ==> 100 <= ns[i] < 1000
    ensures |Fields(ns)| == 4 * |ns| - 1
  {
    ThreeDigits(ns[0]);
    if |ns| > 1 {
      WideFields(ns[1..]);
    }
  }

  /** Long replies that are cut off: an IPv6 address whose bytes all take
      three digits. */
  lemma WideAddressCutOff(host: seq<nat>, port: nat)
    requires IsHost(host) && |host| == 16 && port < 65536 && forall i :: 0 <= i < 16 ==> host[i] >= 100
    ensures |Body(Lpsv, host, port)| >= 64
    ensures DataAddress(Lpsv, host, Cut(Body(Lpsv, host, port))) != Some(Endpoint(host, port))
  {
    var rest := [2] + PortBytes(port);
    assert host[0] != 0 && Shown(host) == host;
    assert Numbers(Lpsv, host, port) == [6, 16] + (host + rest);
    AddressScansBack(Lpsv, host, host, port);
    WideFields(host);
    FieldsJoined(host, rest);
    FieldsJoined([6, 16], host + rest);
  }

  // ---------------------------------------------------------------------
  // Which command is answered

  /** The passive commands in the order they are tried. */
  function ModesFor(peer: seq<int>, doepsv4: bool): seq<Mode> {
    if |peer| != 4 then [Epsv, Lpsv] else if doepsv4 then [Epsv, Pasv, Lpsv] else [Pasv, Lpsv]
  }

  /** The first of the commands that is accepted, and what its reply left. */
  function Tries(modes: seq<Mode>, s: seq<int>, i: nat, connected: bool): Option<(Mode, Scan)>
    requires i <= |s|
    decreases |modes|
  {
    if modes == [] || !connected then None
    else match ScanReply(Blank, 0, s, i)
      case Eof(_) => None
      case Got(n, _, lost, next, st) =>
        if n == COMPLETE then Some((modes[0], st)) else Tries(modes[1..], s, next, !lost)
  }

  function CommandOf(mode: Mode): seq<int> {
    if mode.Epsv? then Bytes("EPSV") else if mode.Pasv? then Bytes("PASV") else Bytes("LPSV")
  }

  /** What a client sends that tries `commands` one after the other until one
      is accepted: each with CR LF, and then its answers to telnet requests
      within the reply. */
  function Said(commands: seq<seq<int>>, s: seq<int>, i: nat, connected: bool): seq<int>
    requires i <= |s|
    decreases |commands|
  {
    if commands == [] || !connected then []
    else
      var sent := commands[0] + [13, 10];
      match ScanReply(Blank, 0, s, i)
      case Eof(st) => sent + (st.answers + [])
      case Got(n, _, lost, next, st) =>
        sent + (st.answers + if n == COMPLETE then [] else Said(commands[1..], s, next, !lost))
  }

  lemma SaidStep(commands: seq<seq<int>>, s: seq<int>, i: nat, connected: bool)
    requires i <= |s|
    ensures commands == [] || !connected ==> Said(commands, s, i, connected) == []
    ensures commands != [] && connected ==> Said(commands, s, i, connected) == match ScanReply(Blank, 0, s, i)
            case Eof(st) => commands[0] + [13, 10] + (st.answers + [])
            case Got(n, _, lost, next, st) =>
              commands[0] + [13, 10] + (st.answers + if n == COMPLETE then [] else Said(commands[1..], s, next, !lost))
    ensures forall j: nat :: j <= |s| ==> Said(commands, s, j, false) == []
  {
    hide ScanReply;
  }

  lemma TryStep(modes: seq<Mode>, s: seq<int>, i: nat, connected: bool)
    requires i <= |s| && modes != []
    ensures !connected ==> Tries(modes, s, i, connected) == None
    ensures connected ==> Tries(modes, s, i, connected) == match ScanReply(Blank, 0, s, i)
            case Eof(_) => None
            case Got(n, _, lost, next, st) =>
              if n == COMPLETE then Some((modes[0], st)) else Tries(modes[1..], s, next, !lost)
    ensures forall j: nat :: j <= |s| ==> Tries(modes[1..], s, j, false) == None
  {
    hide ScanReply;
  }

  /** The first of the commands left is sent. */
  method TryMode(client: Client, mode: Mode, ghost modes: seq<Mode>, ghost commands: seq<seq<int>>,
                 ghost goal: Option<(Mode, Scan)>, ghost said: seq<int>) returns (ok: bool, ghost st: Scan)
    requires client.Valid() && modes != [] && modes[0] == mode
    requires commands != [] && commands[0] == CommandOf(mode)
    requires goal == Tries(modes, client.cin.data, client.cin.pos, client.connected)
    requires said == client.cout.bytes + Said(commands, client.cin.data, client.cin.pos, client.connected)
    modifies client, client.cin, client.cout, client.pasv
    ensures client.Valid()
    ensures ok ==> client.Captured(st) && goal == Some((mode, st)) && client.cout.bytes == said
    ensures !ok ==> goal == Tries(modes[1..], client.cin.data, client.cin.pos, client.connected)
    ensures !ok ==> said == client.cout.bytes
                            + Said(commands[1..], client.cin.data, client.cin.pos, client.connected)
  {
    hide Tries, Said, ScanReply, CommandOf;
    TryStep(modes, client.cin.data, client.cin.pos, client.connected);
    SaidStep(commands, client.cin.data, client.cin.pos, client.connected);
    SaidStep(commands[1..], client.cin.data, client.cin.pos, client.connected);
    ghost var o := ScanReply(Blank, 0, client.cin.data, client.cin.pos);
    ghost var before := client.cout.bytes;
    var n := client.Command(CommandOf(mode), false);
    ok, st := n == COMPLETE, o.st;
    if o.Got? && !ok {
      ghost var rest := Said(commands[1..], client.cin.data, o.next, !o.lost);
      Assembled(before, commands[0], [13, 10], st.answers, rest);
    } else {
      Assembled(before, commands[0], [13, 10], st.answers, []);
    }
  }

  lemma Assembled<T>(a: seq<T>, b: seq<T>, c: seq<T>, d: seq<T>, e: seq<T>)
    ensures a + (b + c + (d + e)) == a + b + c + d + e
    ensures d + [] == d && a + b + c + d + [] == a + b + c + d && a + [] == a
  {
  }

  /** initconn in passive mode: the commands in their order until one is
      accepted, and the address in its reply. */
  method Initconn(client: Client, peer: seq<int>, doepsv4: bool) returns (r: Option<Endpoint>, epsv: bool)
    requires client.Valid()
    modifies client, client.cin, client.cout, client.pasv
    ensures client.Valid()
    ensures var commands := if |peer| != 4 then [Bytes("EPSV"), Bytes("LPSV")]
                            else if doepsv4 then [Bytes("EPSV"), Bytes("PASV"), Bytes("LPSV")]
                            else [Bytes("PASV"), Bytes("LPSV")];
            client.cout.bytes == old(client.cout.bytes)
                                 + Said(commands, client.cin.data, old(client.cin.pos), old(client.connected))
    ensures match Tries(ModesFor(peer, doepsv4), client.cin.data, old(client.cin.pos), old(client.connected))
            case None => r == None && epsv == (doepsv4 && |peer| != 4)
            case Some((mode, st)) =>
              && (st.pflag == 3 && 0 !in st.captured ==> r == DataAddress(mode, peer, st.captured))
              && epsv == (doepsv4 && (|peer| != 4 || mode == Epsv))
  {
    hide Tries, Said, DataAddress, CString, Bytes;
    epsv := doepsv4;
    ghost var modes := ModesFor(peer, doepsv4);
    ghost var commands := if |peer| != 4 then [Bytes("EPSV"), Bytes("LPSV")]
                          else if doepsv4 then [Bytes("EPSV"), Bytes("PASV"), Bytes("LPSV")]
                          else [Bytes("PASV"), Bytes("LPSV")];
    ghost var goal := Tries(modes, client.cin.data, client.cin.pos, client.connected);
    ghost var said := client.cout.bytes + Said(commands, client.cin.data, client.cin.pos, client.connected);
    ghost var st := Blank;
    var mode, ok := Epsv, false;
    NoModes(client.cin.data);
    if |peer| == 4 {
      if doepsv4 {
        ok, st := TryMode(client, Epsv, modes, commands, goal, said);
        epsv := ok;
      }
      if !ok {
        mode := Pasv;
        ok, st := TryMode(client, Pasv, [Pasv, Lpsv], [Bytes("PASV"), Bytes("LPSV")], goal, said);
        if !ok {
          mode := Lpsv;
          ok, st := TryMode(client, Lpsv, [Lpsv], [Bytes("LPSV")], goal, said);
        }
      }
    } else {
      ok, st := TryMode(client, Epsv, modes, commands, goal, said);
      if !ok {
        mode := Lpsv;
        ok, st := TryMode(client, Lpsv, [Lpsv], [Bytes("LPSV")], goal, said);
      }
    }
    if !ok {
      assert client.cout.bytes + [] == client.cout.bytes;
      return None, epsv;
    }
    r := ReadAddress(mode, peer, client.pasv);
    if st.pflag == 3 && 0 !in st.captured {
      BufferHolds(client.pasv[..], st.captured);
    }
  }

  lemma NoModes(s: seq<int>)
    ensures forall i: nat, c :: i <= |s| ==> Tries([], s, i, c) == None
    ensures forall i: nat, c :: i <= |s| ==> Said([], s, i, c) == []
    ensures [Epsv, Pasv, Lpsv][1..] == [Pasv, Lpsv] && [Pasv, Lpsv][1..] == [Lpsv] && [Epsv, Lpsv][1..] == [Lpsv]
    ensures [Lpsv][1..] == []
    ensures forall a: seq<int>, b, c :: [a, b, c][1..] == [b, c] && [a, b][1..] == [b] && [a][1..] == []
  {
  }

  /** A reply that does not accept a command. */
  predicate Refusal(r: Reply) {
    GoodReply(r) && r.code / 100 != COMPLETE && r.code != 421
  }

  /** A host and a port that a passive command can be answered with. */
  predicate Answers(mode: Mode, peer: seq<nat>, host: seq<nat>, port: nat) {
    && IsHost(host) && port < 65536 && (mode.Pasv? ==> |Shown(host)| == 4)
    && (mode.Epsv? || |peer| == |Shown(host)|)
  }

  /** What the reply to `mode` left is read back as the address and port,
      exactly when the reply's body is short enough. */
  predicate FoundBy(t: Option<(Mode, Scan)>, mode: Mode, peer: seq<nat>, host: seq<nat>, port: nat) {
    && t.Some? && t.value.0 == mode && t.value.1.pflag == 3 && 0 !in t.value.1.captured
    && (DataAddress(mode, peer, t.value.1.captured) == Some(Endpoint(Told(mode, peer, host), port))
        <==> |Body(mode, host, port)| < 64)
  }

  function PassiveReply(mode: Mode, host: seq<nat>, port: nat): seq<int> {
    LastBytes(PassiveCode(mode, host), PassiveText(mode, host, port))
  }

  lemma FirstTryFinds(modes: seq<Mode>, peer: seq<nat>, host: seq<nat>, port: nat, s: seq<int>, i: nat)
    requires modes != [] && i <= |s|
    requires Answers(modes[0], peer, host, port) && StandsAt(s, i, PassiveReply(modes[0], host, port))
    ensures FoundBy(Tries(modes, s, i, true), modes[0], peer, host, port)
  {
    hide Tries, ScanReply, DataAddress, Body, PassiveCode, PassiveText, LastBytes, StandsAt;
    TryStep(modes, s, i, true);
    PassiveRoundTrip(modes[0], peer, host, port, s, i);
  }

  lemma RefusedTry(modes: seq<Mode>, r: Reply, s: seq<int>, i: nat)
    requires modes != [] && i <= |s| && Refusal(r) && StandsAt(s, i, ReplyBytes(r))
    ensures i + |ReplyBytes(r)| <= |s|
    ensures Tries(modes, s, i, true) == Tries(modes[1..], s, i + |ReplyBytes(r)|, true)
  {
    hide Tries, ScanReply, ReplyBytes, GoodReply;
    OneReplyPerCall(s, i, r);
    TryStep(modes, s, i, true);
  }

  lemma StandStep(s: seq<int>, i: nat, rs: seq<Reply>)
    requires rs != [] && Stand(s, i, rs)
    ensures StandsAt(s, i, ReplyBytes(rs[0])) && Stand(s, i + |ReplyBytes(rs[0])|, rs[1..])
    ensures LengthOf(rs) == |ReplyBytes(rs[0])| + LengthOf(rs[1..])
  {
    hide StandsAt, ReplyBytes, GoodReply;
  }

  /** The passive replies: 229 with the port (section 3 of RFC 2428), 227 with
      the bytes of an IPv4 address and of the port (section 4.1.2 of RFC 959),
      228 with family, lengths, address and port (RFC 1639).  A mapped address
      is printed as the IPv4 address in it. */
  lemma PassiveReplyForms(host: seq<nat>, port: nat, shown: seq<nat>)
    requires IsHost(host) && port < 65536
    requires shown == if |host| == 16 && (forall i :: 0 <= i < 12 ==> host[i] == if i < 10 then 0 else 255)
                      then host[12..] else host
    ensures PassiveReply(Epsv, host, port)
            == Bytes("229 ") + (Bytes("Entering Extended Passive Mode (|||") + (Decimal(port) + ['|' as int])
                                + [')' as int]) + [13, 10]
    ensures |shown| == 4 ==>
              PassiveReply(Pasv, host, port)
              == Bytes("227 ") + (Bytes("Entering Passive Mode (") + Fields(shown + PortBytes(port)) + [')' as int])
                 + [13, 10]
    ensures PassiveReply(Lpsv, host, port)
            == Bytes("228 ") + (Bytes("Entering Long Passive Mode (") + Fields(LongNumbers(shown, port)) + [')' as int])
               + [13, 10]
    ensures |shown| == 16 ==> PassiveReply(Pasv, host, port) == PassiveReply(Lpsv, host, port)
    ensures PortBytes(port) == [port / 256, port % 256]
    ensures LongNumbers(shown, port) == (if |shown| == 4 then [4, 4] else [6, 16]) + shown + [2] + PortBytes(port)
  {
    hide Fields, Decimal, Bytes, LastBytes, PassiveCode, PassiveText, Body, Intro, Numbers, PassiveReply;
    ShownIs(host, shown);
    LongIs(shown, port);
    hide Shown, LongNumbers, PortBytes, IsHost;
    CodeBytes();
    ReplyParts(Epsv, host, port);
    ReplyParts(Pasv, host, port);
    ReplyParts(Lpsv, host, port);
    PartsOf(Epsv, host, port);
    PartsOf(Pasv, host, port);
    PartsOf(Lpsv, host, port);
  }

  lemma ShownIs(host: seq<nat>, shown: seq<nat>)
    requires IsHost(host)
    requires shown == if |host| == 16 && (forall i :: 0 <= i < 12 ==> host[i] == if i < 10 then 0 else 255)
                      then host[12..] else host
    ensures Shown(host) == shown && (|shown| == 4 || |shown| == 16)
  {
  }

  lemma LongIs(shown: seq<nat>, port: nat)
    requires (|shown| == 4 || |shown| == 16) && port < 65536
    ensures PortBytes(port) == [port / 256, port % 256]
    ensures LongNumbers(shown, port) == (if |shown| == 4 then [4, 4] else [6, 16]) + shown + [2] + PortBytes(port)
  {
  }

  lemma ReplyParts(mode: Mode, host: seq<nat>, port: nat)
    ensures PassiveReply(mode, host, port)
            == Decimal(PassiveCode(mode, host)) + [SPACE]
               + (Intro(mode, host) + Body(mode, host, port) + [CLOSE]) + [13, 10]
  {
  }

  lemma PartsOf(mode: Mode, host: seq<nat>, port: nat)
    requires |Shown(host)| == 4 || |Shown(host)| == 16
    ensures mode.Epsv? ==>
              && PassiveCode(mode, host) == 229 && Body(mode, host, port) == Decimal(port) + [BAR]
              && Intro(mode, host) == Bytes("Entering Extended Passive Mode (|||")
    ensures mode.Pasv? && |Shown(host)| == 4 ==>
              && PassiveCode(mode, host) == 227 && Intro(mode, host) == Bytes("Entering Passive Mode (")
              && Body(mode, host, port) == Fields(Shown(host) + PortBytes(port))
    ensures mode.Lpsv? || (mode.Pasv? && |Shown(host)| == 16) ==>
              && PassiveCode(mode, host) == 228 && Intro(mode, host) == Bytes("Entering Long Passive Mode (")
              && Body(mode, host, port) == Fields(LongNumbers(Shown(host), port))
  {
    hide Decimal, Bytes, Shown;
    if mode.Epsv? {
      assert Fields([port]) == Decimal(port);
    } else {
      hide Fields;
      var fields := Fields(Numbers(mode, host, port));
      assert fields + [] == fields;
    }
  }

  lemma CodeBytes()
    ensures Decimal(227) + [SPACE] == Bytes("227 ") && Decimal(228) + [SPACE] == Bytes("228 ")
    ensures Decimal(229) + [SPACE] == Bytes("229 ")
  {
    ThreeDigits(227);
    ThreeDigits(228);
    ThreeDigits(229);
  }

  /** When the server refuses the first commands and accepts the next one, the
      client uses that one, and gets its address and port exactly when the
      reply's body is short enough. */
  lemma {:induction false} FallbackFindsAddress(modes: seq<Mode>, refusals: seq<Reply>, peer: seq<nat>,
                                                host: seq<nat>, port: nat, s: seq<int>, i: nat)
    requires |refusals| < |modes| && i <= |s| && Stand(s, i, refusals)
    requires forall k :: 0 <= k < |refusals| ==> Refusal(refusals[k])
    requires Answers(modes[|refusals|], peer, host, port)
    requires StandsAt(s, i + LengthOf(refusals), PassiveReply(modes[|refusals|], host, port))
    ensures FoundBy(Tries(modes, s, i, true), modes[|refusals|], peer, host, port)
    decreases |refusals|
  {
    hide Tries, Stand, StandsAt, ReplyBytes, Refusal, PassiveReply, Answers, FoundBy;
    if refusals == [] {
      assert LengthOf(refusals) == 0;
      FirstTryFinds(modes, peer, host, port, s, i);
    } else {
      hide LengthOf;
      StandStep(s, i, refusals);
      RefusedTry(modes, refusals[0], s, i);
      var n := |ReplyBytes(refusals[0])|;
      FallbackFindsAddress(modes[1..], refusals[1..], peer, host, port, s, i + n);
    }
  }

  lemma BufferHolds(buffer: seq<int>, captured: seq<int>)
    requires |captured| < |buffer| && buffer[..|captured|] == captured && buffer[|captured|] == 0
    requires 0 !in captured
    ensures CString(buffer) == captured
  {
    assert forall i :: 0 <= i < |captured| ==> buffer[i] == captured[i] && captured[i] in captured;
    CStringEnds(buffer, |captured|);
  }
}
