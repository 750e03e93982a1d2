/** Replies on the control connection: the server prints, the client reads. */
module FtpReply {
  import opened FirstSeen
  import opened Streams
  import opened Decimals

  const LF := 10
  const CR := 13
  const SPACE := 32
  const MINUS := '-' as int
  const CLOSE := ')' as int

  // telnet
  const IAC := 255
  const DONT := 254
  const DO := 253
  const WONT := 252
  const WILL := 251

  const TRANSIENT := 4
  const PRELIM := 1
  const PASV_SIZE := 64

  // ---------------------------------------------------------------------
  // The server

  /** A line of a multi-line reply: one printed by lreply, or a raw one. */
  datatype Line = Marked(text: seq<int>) | Raw(text: seq<int>)

  /** A reply: lines before the last one, and the last one's text. */
  datatype Reply = Reply(code: nat, lines: seq<Line>, last: seq<int>)

  function LineBytes(code: nat, l: Line): seq<int> {
    if l.Marked? then Decimal(code) + [MINUS, SPACE] + l.text + [CR, LF] else l.text + [CR, LF]
  }

  function LastBytes(code: nat, text: seq<int>): seq<int> {
    Decimal(code) + [SPACE] + text + [CR, LF]
  }

  function LinesBytes(code: nat, ls: seq<Line>): seq<int> {
    if ls == [] then [] else LineBytes(code, ls[0]) + LinesBytes(code, ls[1..])
  }

  function ReplyBytes(r: Reply): seq<int> {
    LinesBytes(r.code, r.lines) + LastBytes(r.code, r.last)
  }

  /** The lines of a text, cut at each LF. */
  function TextLines(text: seq<int>): (ls: seq<seq<int>>)
    ensures ls != []
  {
    if text == [] then [[]]
    else
      var rest := TextLines(text[1..]);
      if text[0] == LF then [[]] + rest else [[text[0]] + rest[0]] + rest[1..]
  }

  function MarkedAll(texts: seq<seq<int>>): seq<Line> {
    seq(|texts|, i requires 0 <= i < |texts| => Marked(texts[i]))
  }

  /** The output side of the server, stdout being the control connection. */
  class Server {
    const out: OutStream

    constructor (out: OutStream)
      ensures this.out == out
    {
      this.out := out;
    }

    method Print(s: seq<int>)
      modifies out
      ensures out.bytes == old(out.bytes) + s
    {
      out.bytes := out.bytes + s;
    }

    /** reply */
    method SendReply(n: nat, text: seq<int>)
      modifies out
      ensures out.bytes == old(out.bytes) + LastBytes(n, text)
      ensures out.bytes == old(out.bytes) + (Decimal(n) + [' ' as int] + text + [13, 10])
    {
      Print(Decimal(n) + [SPACE]);
      Print(text);
      Print([CR, LF]);
      assert out.bytes == old(out.bytes) + (Decimal(n) + [SPACE] + text + [CR, LF]);
    }

    /** lreply */
    method SendLine(n: nat, text: seq<int>)
      modifies out
      ensures out.bytes == old(out.bytes) + LineBytes(n, Marked(text))
      ensures out.bytes == old(out.bytes) + (Decimal(n) + ['-' as int, ' ' as int] + text + [13, 10])
    {
      Print(Decimal(n) + [MINUS, SPACE]);
      Print(text);
      Print([CR, LF]);
      assert out.bytes == old(out.bytes) + (Decimal(n) + [MINUS, SPACE] + text + [CR, LF]);
    }

    /** lreply_multiline */
    method SendLines(n: nat, text: seq<int>)
      modifies out
      ensures out.bytes == old(out.bytes) + LinesBytes(n, MarkedAll(TextLines(text)))
    {
      var p1 := 0;
      var stop := false;
      ghost var all := LinesBytes(n, MarkedAll(TextLines(text)));
      Ends(n, text);
      hide LinesBytes, MarkedAll, TextLines, LineBytes, LinesFrom;
      while !stop
        invariant stop || p1 <= |text|
        invariant out.bytes + LinesFrom(n, text, p1, stop) == old(out.bytes) + all
        decreases if stop then 0 else |text| - p1 + 1
      {
        var p2 := FindLf(text, p1);
        NextTextLine(n, text, p1, p2);
        stop := p2 == |text|;
        Assoc(out.bytes, LineBytes(n, Marked(text[p1..p2])), LinesFrom(n, text, p2 + 1, stop));
        SendLine(n, text[p1..p2]);
        p1 := p2 + 1;
      }
      Ends(n, text);
      assert LinesFrom(n, text, p1, stop) == [];
      assert out.bytes + [] == out.bytes;
    }
  }

  /** strchrnul for LF. */
  method FindLf(text: seq<int>, p: nat) returns (q: nat)
    requires p <= |text|
    ensures p <= q <= |text| && (forall i :: p <= i < q ==> text[i] != LF) && (q == |text| || text[q] == LF)
  {
    q := p;
    while q < |text| && text[q] != LF
      invariant p <= q <= |text|
      invariant forall i :: p <= i < q ==> text[i] != LF
    {
      q := q + 1;
    }
  }

  lemma Ends(n: nat, text: seq<int>)
    ensures LinesFrom(n, text, 0, false) == LinesBytes(n, MarkedAll(TextLines(text)))
    ensures forall p: nat :: LinesFrom(n, text, p, true) == []
  {
    assert text[0..] == text;
  }

  /** What lreply_multiline still has to print. */
  function LinesFrom(n: nat, text: seq<int>, p: nat, stop: bool): seq<int>
    requires stop || p <= |text|
  {
    if stop then [] else LinesBytes(n, MarkedAll(TextLines(text[p..])))
  }

  lemma NextTextLine(n: nat, text: seq<int>, p1: nat, p2: nat)
    requires p1 <= p2 <= |text| && (forall i :: p1 <= i < p2 ==> text[i] != LF) && (p2 == |text| || text[p2] == LF)
    ensures LinesFrom(n, text, p1, false)
            == LineBytes(n, Marked(text[p1..p2])) + LinesFrom(n, text, p2 + 1, p2 == |text|)
  {
    hide TextLines, MarkedAll, LinesBytes, LineBytes;
    NothingToPrint(n);
    FirstTextLine(text[p1..], p2 - p1);
    FirstMarked(n, text[p1..], p2 - p1);
    assert text[p1..][..p2 - p1] == text[p1..p2];
    if p2 < |text| {
      assert text[p1..][p2 - p1 + 1..] == text[p2 + 1..];
    }
  }

  lemma NothingToPrint(n: nat)
    ensures LinesBytes(n, MarkedAll([])) == []
  {
  }

  lemma {:induction false} FirstTextLine(text: seq<int>, k: nat)
    requires k <= |text| && (forall i :: 0 <= i < k ==> text[i] != LF) && (k == |text| || text[k] == LF)
    ensures TextLines(text)[0] == text[..k]
    ensures TextLines(text)[1..] == if k == |text| then [] else TextLines(text[k + 1..])
  {
    if k > 0 {
      FirstTextLine(text[1..], k - 1);
      assert text[..k] == [text[0]] + text[1..][..k - 1];
      assert k < |text| ==> text[1..][k..] == text[k + 1..];
    }
  }

  lemma FirstMarked(n: nat, text: seq<int>, k: nat)
    requires k <= |text| && TextLines(text)[0] == text[..k]
    ensures LinesBytes(n, MarkedAll(TextLines(text)))
            == LineBytes(n, Marked(text[..k])) + LinesBytes(n, MarkedAll(TextLines(text)[1..]))
  {
    var ms := MarkedAll(TextLines(text));
    assert ms[0] == Marked(text[..k]) && ms[1..] == MarkedAll(TextLines(text)[1..]);
  }

  // ---------------------------------------------------------------------
  // The client

  /** What getreply has gathered: about the current line `dig`, `n` and
      `code`; about the reply `continuation`, `pflag` and the captured text;
      and its answers to telnet commands. */
  datatype Scan = Scan(dig: nat, n: int, code: int, continuation: nat, pflag: int, captured: seq<int>,
                       answers: seq<int>)

  const Blank := Scan(0, 0, 0, 0, 0, [], [])

  function StartLine(st: Scan): Scan {
    st.(dig := 0, n := 0, code := 0)
  }

  /** One character of a line. */
  function ScanChar(st: Scan, c: int): Scan {
    var dig := st.dig + 1;
    var code := if dig < 4 && IsDigit(c) then st.code * 10 + (c - 48) else st.code;
    var started := if st.pflag == 0 && (code == 227 || code == 228 || code == 229) then 1 else st.pflag;
    var capturing := if dig > 4 && started == 1 && IsDigit(c) then 2 else started;
    var kept := capturing == 2 && c != CR && c != CLOSE;
    var pflag := if capturing == 2 && !kept then 3 else capturing;
    var captured := if kept && |st.captured| < PASV_SIZE - 1 then st.captured + [c] else st.captured;
    var dashed := dig == 4 && c == MINUS;
    Scan(dig,
         if st.n == 0 then c - 48 else st.n,
         if dashed && st.continuation > 0 then 0 else code,
         if dashed then st.continuation + 1 else st.continuation,
         pflag, captured, st.answers)
  }

  datatype LineEnd = Ended(st: Scan, next: nat) | Lost(st: Scan)

  /** One line from position `i` on: its end, or the end of the stream. */
  function ScanLine(st: Scan, s: seq<int>, i: nat): (e: LineEnd)
    requires i <= |s|
    ensures e.Ended? ==> i < e.next <= |s|
    decreases |s| - i
  {
    if i == |s| then Lost(st)
    else if s[i] == LF then Ended(st, i + 1)
    else if s[i] == IAC then
      if i + 1 == |s| then Lost(st)
      else if s[i + 1] == WILL || s[i + 1] == WONT || s[i + 1] == DO || s[i + 1] == DONT then
        var c := if i + 2 < |s| then s[i + 2] else 255;
        var answer := [IAC, if s[i + 1] == WILL || s[i + 1] == WONT then DONT else WONT, c];
        ScanLine(st.(answers := st.answers + answer), s, if i + 2 < |s| then i + 3 else |s|)
      else ScanLine(st, s, i + 2)
    else ScanLine(ScanChar(st, s[i]), s, i + 1)
  }

  /** What getreply returns, the code it leaves, whether it gives up the
      connection, where it leaves the stream and what it captured. */
  datatype Outcome = Got(n: int, code: int, lost: bool, next: nat, st: Scan) | Eof(st: Scan)

  /** Lines from position `i` on until one ends the reply. */
  function ScanReply(st: Scan, original: int, s: seq<int>, i: nat): (o: Outcome)
    requires i <= |s|
    ensures o.Got? ==> i < o.next <= |s|
    decreases |s| - i
  {
    var e := ScanLine(StartLine(st), s, i);
    if e.Lost? then Eof(e.st)
    else if e.st.continuation > 0 && e.st.code != original then
      ScanReply(e.st, if original == 0 then e.st.code else original, s, e.next)
    else Got(e.st.n, e.st.code, e.st.code == 421 || original == 421, e.next, e.st)
  }

  /** The client's side of the control connection. */
  class Client {
    const cin: InStream
    const cout: OutStream
    const pasv: array<int>
    var code: int
    var cpend: bool
    var connected: bool

    ghost predicate Valid()
      reads this, cin
    {
      cin.Valid() && pasv.Length == PASV_SIZE
    }

    constructor (cin: InStream)
      requires cin.Valid()
      ensures Valid() && this.cin == cin && fresh(pasv) && fresh(cout) && cout.bytes == [] && connected
    {
      this.cin := cin;
      cout := new OutStream();
      pasv := new int[PASV_SIZE](_ => 0);
      code, cpend, connected := 0, true, true;
    }

    /** The buffer holds what was captured, terminated once it is complete. */
    ghost predicate Captured(st: Scan)
      reads pasv
    {
      && |st.captured| < pasv.Length && pasv[..|st.captured|] == st.captured
      && (st.pflag == 3 ==> pasv[|st.captured|] == 0)
    }

    /** The gathered state is in the buffer and on the control connection,
        which carried `sent` before this reply. */
    ghost predicate Mirrors(st: Scan, sent: seq<int>)
      reads cout, pasv
    {
      pasv.Length == PASV_SIZE && Captured(st) && cout.bytes == sent + st.answers
    }

    /** getreply: one character that is neither LF, EOF nor IAC. */
    method ReadChar(st: Scan, c: int, ghost sent: seq<int>) returns (st': Scan)
      requires Mirrors(st, sent)
      modifies pasv
      ensures st' == ScanChar(st, c) && Mirrors(st', sent)
    {
      var dig, n, code, continuation, pflag, pt := st.dig, st.n, st.code, st.continuation, st.pflag, |st.captured|;
      dig := dig + 1;
      if dig < 4 && IsDigit(c) {
        code := code * 10 + (c - 48);
      }
      if pflag == 0 && (code == 227 || code == 228 || code == 229) {
        pflag := 1;
      }
      if dig > 4 && pflag == 1 && IsDigit(c) {
        pflag := 2;
      }
      if pflag == 2 {
        if c != CR && c != CLOSE {
          if pt < PASV_SIZE - 1 {
            pasv[pt] := c;
            pt := pt + 1;
          }
        } else {
          pasv[pt] := 0;
          pflag := 3;
        }
      }
      if dig == 4 && c == MINUS {
        if continuation > 0 {
          code := 0;
        }
        continuation := continuation + 1;
      }
      if n == 0 {
        n := c - 48;
      }
      st' := Scan(dig, n, code, continuation, pflag, pasv[..pt], st.answers);
    }

    /** getreply: a telnet command after its IAC. */
    method AnswerTelnet(st: Scan, ghost sent: seq<int>) returns (st': Scan)
      requires cin.Valid() && Mirrors(st, sent)
      modifies cin, cout
      ensures cin.Valid() && Mirrors(st', sent) && old(cin.pos) <= cin.pos
      ensures ScanLine(st', cin.data, cin.pos) == AfterIac(st, cin.data, old(cin.pos))
    {
      hide ScanLine;
      AtEnd(st, cin.data);
      st' := st;
      var command := cin.Getc();
      if command == WILL || command == WONT || command == DO || command == DONT {
        var c := cin.Getc();
        var answer := [IAC, if command == WILL || command == WONT then DONT else WONT, if c == EOF then 255 else c];
        Assoc(sent, st.answers, answer);
        cout.bytes := cout.bytes + answer;
        st' := st.(answers := st.answers + answer);
      }
    }

    /** getreply: one line. */
    method ReadLine(start: Scan, ghost sent: seq<int>) returns (st: Scan, eof: bool)
      requires cin.Valid() && Mirrors(start, sent)
      modifies cin, cout, pasv
      ensures cin.Valid() && Mirrors(st, sent) && old(cin.pos) <= cin.pos
      ensures ScanLine(start, cin.data, old(cin.pos)) == if eof then Lost(st) else Ended(st, cin.pos)
    {
      st := start;
      ghost var goal := ScanLine(start, cin.data, cin.pos);
      while true
        invariant cin.Valid() && Mirrors(st, sent) && old(cin.pos) <= cin.pos
        invariant ScanLine(st, cin.data, cin.pos) == goal
        decreases |cin.data| - cin.pos
      {
        LineStep(st, cin.data, cin.pos);
        hide ScanChar, ScanLine, AfterIac, Mirrors;
        var c := cin.Getc();
        if c == EOF {
          return st, true;
        }
        if c == LF {
          return st, false;
        }
        if c == IAC {
          st := AnswerTelnet(st, sent);
        } else {
          st := ReadChar(st, c, sent);
        }
      }
    }

    /** getreply; the result is the reply's first digit. */
    method GetReply(expectEof: bool) returns (n: int)
      requires Valid()
      modifies this, cin, cout, pasv
      ensures Valid()
      ensures match ScanReply(Blank, 0, cin.data, old(cin.pos))
              case Got(digit, code, lost, next, st) =>
                && n == digit && this.code == code && cin.pos == next && Captured(st)
                && cout.bytes == old(cout.bytes) + st.answers
                && cpend == (digit == PRELIM && old(cpend)) && connected == (old(connected) && !lost)
              case Eof(st) =>
                && n == (if expectEof then 0 else TRANSIENT) && this.code == (if expectEof then 221 else 421)
                && cout.bytes == old(cout.bytes) + st.answers
                && connected == (old(connected) && expectEof)
    {
      var st := Blank;
      var original := 0;
      ghost var sent := cout.bytes;
      ghost var goal := ScanReply(Blank, 0, cin.data, cin.pos);
      assert cout.bytes + [] == cout.bytes;
      while true
        invariant cin.Valid() && Mirrors(st, sent) && cpend == old(cpend) && connected == old(connected)
        invariant ScanReply(st, original, cin.data, cin.pos) == goal
        decreases |cin.data| - cin.pos
      {
        ReplyStep(st, original, cin.data, cin.pos);
        hide ScanReply, ScanLine;
        var eof;
        st, eof := ReadLine(StartLine(st), sent);
        if eof {
          code := if expectEof then 221 else 421;
          connected := connected && expectEof;
          return if expectEof then 0 else TRANSIENT;
        }
        if st.continuation > 0 && st.code != original {
          if original == 0 {
            original := st.code;
          }
        } else {
          if st.n != PRELIM {
            cpend := false;
          }
          code := st.code;
          if st.code == 421 || original == 421 {
            connected := false;
          }
          return st.n;
        }
      }
    }

    /** command, without a control connection or with one */
    method Command(text: seq<int>, quit: bool) returns (r: int)
      requires Valid()
      modifies this, cin, cout, pasv
      ensures Valid()
      ensures !old(connected) ==>
                r == 0 && code == -1 && !connected && cin.pos == old(cin.pos) && cout.bytes == old(cout.bytes)
      ensures old(connected) ==> match ScanReply(Blank, 0, cin.data, old(cin.pos))
              case Got(digit, code, lost, next, st) =>
                && r == digit && this.code == code && cin.pos == next && Captured(st) && connected == !lost
                && cout.bytes == old(cout.bytes) + text + [CR, LF] + st.answers && cpend == (digit == PRELIM)
              case Eof(st) =>
                && r == (if quit then 0 else TRANSIENT) && code == (if quit then 221 else 421) && connected == quit
                && cout.bytes == old(cout.bytes) + text + [CR, LF] + st.answers
    {
      if !connected {
        code := -1;
        return 0;
      }
      cout.bytes := cout.bytes + text;
      cout.bytes := cout.bytes + [CR, LF];
      cpend := true;
      r := GetReply(quit);
    }
  }

  lemma AtEnd(st: Scan, s: seq<int>)
    ensures ScanLine(st, s, |s|) == Lost(st)
  {
  }

  lemma LineStep(st: Scan, s: seq<int>, i: nat)
    requires i <= |s|
    ensures ScanLine(st, s, i) ==
            if i == |s| then Lost(st)
            else if s[i] == LF then Ended(st, i + 1)
            else if s[i] == IAC then AfterIac(st, s, i + 1)
            else ScanLine(ScanChar(st, s[i]), s, i + 1)
  {
    hide ScanChar;
  }

  lemma ReplyStep(st: Scan, original: int, s: seq<int>, i: nat)
    requires i <= |s|
    ensures var e := ScanLine(StartLine(st), s, i);
            ScanReply(st, original, s, i) ==
            if e.Lost? then Eof(e.st)
            else if e.st.continuation > 0 && e.st.code != original then
              ScanReply(e.st, if original == 0 then e.st.code else original, s, e.next)
            else Got(e.st.n, e.st.code, e.st.code == 421 || original == 421, e.next, e.st)
  {
  }

  /** ScanLine after an IAC whose command is at position `i`. */
  function AfterIac(st: Scan, s: seq<int>, i: nat): LineEnd
    requires i <= |s|
  {
    if i == |s| then Lost(st)
    else if s[i] == WILL || s[i] == WONT || s[i] == DO || s[i] == DONT then
      var c := if i + 1 < |s| then s[i + 1] else 255;
      var answer := [IAC, if s[i] == WILL || s[i] == WONT then DONT else WONT, c];
      ScanLine(st.(answers := st.answers + answer), s, if i + 1 < |s| then i + 2 else |s|)
    else ScanLine(st, s, i + 1)
  }

  // ---------------------------------------------------------------------
  // Replies are read one by one

  /** Free of LF and of telnet's IAC. */
  predicate Plain(text: seq<int>) {
    LF !in text && IAC !in text
  }

  /** The characters of a line, one after the other. */
  function ScanChars(st: Scan, text: seq<int>): Scan
    decreases |text|
  {
    if text == [] then st else ScanChars(ScanChar(st, text[0]), text[1..])
  }

  lemma {:induction false} ScanCharsAppend(st: Scan, a: seq<int>, b: seq<int>)
    ensures ScanChars(st, a + b) == ScanChars(ScanChars(st, a), b)
    decreases |a|
  {
    hide ScanChar;
    if a == [] {
      assert a + b == b;
    } else {
      assert ScanChars(st, a) == ScanChars(ScanChar(st, a[0]), a[1..]);
      assert ScanChars(st, a + b) == ScanChars(ScanChar(st, a[0]), (a + b)[1..]);
      hide ScanChars;
      assert (a + b)[1..] == a[1..] + b;
      ScanCharsAppend(ScanChar(st, a[0]), a[1..], b);
    }
  }

  /** A plain line is scanned up to its LF. */
  lemma {:induction false} ScanPlainLine(st: Scan, s: seq<int>, i: nat, text: seq<int>)
    requires i + |text| < |s| && s[i..i + |text|] == text && s[i + |text|] == LF && Plain(text)
    ensures ScanLine(st, s, i) == Ended(ScanChars(st, text), i + |text| + 1)
    decreases |text|
  {
    if text != [] {
      assert s[i] == s[i..i + |text|][0];
      assert s[i + 1..i + |text|] == s[i..i + |text|][1..];
      ScanPlainLine(ScanChar(st, s[i]), s, i + 1, text[1..]);
    }
  }

  lemma {:induction false} ScanPart(st: Scan, s: seq<int>, i: nat, text: seq<int>)
    requires i + |text| <= |s| && s[i..i + |text|] == text && Plain(text)
    ensures ScanLine(st, s, i) == ScanLine(ScanChars(st, text), s, i + |text|)
    decreases |text|
  {
    hide ScanChar;
    if text != [] {
      assert s[i] == s[i..i + |text|][0];
      assert s[i + 1..i + |text|] == s[i..i + |text|][1..];
      ScanPart(ScanChar(st, s[i]), s, i + 1, text[1..]);
    }
  }

  lemma {:induction false} AnswersStayApart(st: Scan, x: seq<int>, text: seq<int>)
    ensures ScanChars(st.(answers := x), text) == ScanChars(st, text).(answers := x)
    ensures ScanChars(st, text).answers == st.answers
    decreases |text|
  {
    if text != [] {
      AnswersStayApart(ScanChar(st, text[0]), x, text[1..]);
    }
  }

  /** A telnet command within a line is refused and changes nothing else. */
  lemma TelnetIsTransparent(st: Scan, s: seq<int>, i: nat, a: seq<int>, command: int, option: int, b: seq<int>)
    requires Plain(a) && Plain(b) && (command == WILL || command == WONT || command == DO || command == DONT)
    requires StandsAt(s, i, a + [IAC, command, option] + b + [LF])
    ensures var answer := [IAC, if command == WILL || command == WONT then DONT else WONT, option];
            ScanLine(st, s, i) == Ended(ScanChars(st, a + b).(answers := st.answers + answer), i + |a| + |b| + 4)
  {
    var telnet := [IAC, command, option];
    var answer := [IAC, if command == WILL || command == WONT then DONT else WONT, option];
    hide ScanChar, ScanChars, ScanLine;
    StandsSplit(s, i, a + telnet + b, [LF]);
    StandsSplit(s, i, a + telnet, b);
    StandsSplit(s, i, a, telnet);
    var j := i + |a|;
    assert s[j] == telnet[0] && s[j + 1] == telnet[1] && s[j + 2] == telnet[2] by {
      assert s[j..j + 3] == telnet;
    }
    ScanPart(st, s, i, a);
    var before := ScanChars(st, a);
    LineStep(before, s, j);
    AnswersStayApart(st, st.answers + answer, a);
    AnswersStayApart(before, st.answers + answer, b);
    ScanPlainLine(before.(answers := st.answers + answer), s, j + 3, b);
    ScanCharsAppend(st, a, b);
  }

  /** Past its fourth character a line changes nothing but the capture. */
  lemma {:induction false} ScanTail(st: Scan, text: seq<int>)
    requires st.dig >= 4 && st.n != 0
    ensures var r := ScanChars(st, text);
            r.n == st.n && r.code == st.code && r.continuation == st.continuation && r.dig >= 4
    decreases |text|
  {
    if text != [] {
      ScanTail(ScanChar(st, text[0]), text[1..]);
    }
  }

  lemma ScanFour(st: Scan, a: int, b: int, c: int, d: int)
    ensures ScanChars(st, [a, b, c, d]) == ScanChar(ScanChar(ScanChar(ScanChar(st, a), b), c), d)
  {
    hide ScanChar;
    var s1 := ScanChar(st, a);
    var s2 := ScanChar(s1, b);
    assert [a, b, c, d][1..] == [b, c, d] && [b, c, d][1..] == [c, d] && [c, d][1..] == [d] && [d][1..] == [];
    assert ScanChars(s2, [c, d]) == ScanChars(ScanChar(s2, c), [d]) == ScanChar(ScanChar(s2, c), d);
    assert ScanChars(st, [a, b, c, d]) == ScanChars(s1, [b, c, d]);
  }

  /** The three digits of a code and the character after them. */
  lemma ScanCode(st: Scan, code: nat, mark: int)
    requires 100 <= code <= 999 && !IsDigit(mark)
    ensures var r := ScanChars(StartLine(st), Decimal(code) + [mark]);
            && r.dig == 4 && r.n == code / 100
            && r.code == (if mark == MINUS && st.continuation > 0 then 0 else code)
            && r.continuation == st.continuation + if mark == MINUS then 1 else 0
  {
    ThreeDigits(code);
    var d := Decimal(code);
    var s0 := StartLine(st);
    var s3 := ScanChar(ScanChar(ScanChar(s0, d[0]), d[1]), d[2]);
    assert s3.code == code && s3.n == code / 100 && s3.dig == 3 && s3.continuation == st.continuation;
    assert d + [mark] == [d[0], d[1], d[2], mark];
    ScanFour(s0, d[0], d[1], d[2], mark);
  }

  /** A line that does not start with a digit never shows a three-digit code. */
  lemma {:induction false} ScanRaw(st: Scan, text: seq<int>)
    requires st.dig > 0 && st.n != 0 && st.continuation > 0 && 0 <= st.code < 100
    requires (st.dig == 1 ==> st.code == 0) && (st.dig == 2 ==> st.code < 10)
    ensures var r := ScanChars(st, text); 0 <= r.code < 100 && r.continuation > 0
    decreases |text|
  {
    if text != [] {
      ScanRaw(ScanChar(st, text[0]), text[1..]);
    }
  }

  predicate GoodLine(l: Line) {
    Plain(l.text) && (l.Raw? ==> l.text == [] || !IsDigit(l.text[0]))
  }

  /** Replies as the server sends them: the code has three digits and a reply
      of more than one line starts with a marked one. */
  predicate GoodReply(r: Reply) {
    && 100 <= r.code <= 999 && Plain(r.last)
    && (forall i :: 0 <= i < |r.lines| ==> GoodLine(r.lines[i]))
    && (r.lines != [] ==> r.lines[0].Marked?)
  }

  /** The bytes of `part` stand at position `i`. */
  predicate StandsAt(s: seq<int>, i: nat, part: seq<int>) {
    i + |part| <= |s| && s[i..i + |part|] == part
  }

  lemma StandsSplit(s: seq<int>, i: nat, a: seq<int>, b: seq<int>)
    requires StandsAt(s, i, a + b)
    ensures StandsAt(s, i, a) && StandsAt(s, i + |a|, b)
  {
    assert s[i..i + |a|] == (a + b)[..|a|];
    assert s[i + |a|..i + |a| + |b|] == (a + b)[|a|..];
  }

  lemma DecimalIsPlain(n: nat)
    ensures Plain(Decimal(n))
  {
  }

  /** A line of the reply before its last one. */
  lemma ScanInnerLine(st: Scan, s: seq<int>, i: nat, code: nat, l: Line)
    requires 100 <= code <= 999 && GoodLine(l) && StandsAt(s, i, LineBytes(code, l))
    requires l.Raw? ==> st.continuation > 0
    ensures var e := ScanLine(StartLine(st), s, i);
            && e.Ended? && e.next == i + |LineBytes(code, l)| && e.st.continuation > 0
            && (st.continuation == 0 ==> e.st.code == code)
            && (st.continuation > 0 ==> e.st.code < 100)
  {
    if l.Marked? {
      var head := Decimal(code) + [MINUS];
      var body := head + ([SPACE] + l.text + [CR]);
      assert LineBytes(code, l) == body + [LF];
      StandsSplit(s, i, body, [LF]);
      DecimalIsPlain(code);
      ScanPlainLine(StartLine(st), s, i, body);
      ScanCharsAppend(StartLine(st), head, [SPACE] + l.text + [CR]);
      ScanCode(st, code, MINUS);
      ScanTail(ScanChars(StartLine(st), head), [SPACE] + l.text + [CR]);
    } else {
      var body := l.text + [CR];
      assert LineBytes(code, l) == body + [LF];
      StandsSplit(s, i, body, [LF]);
      ScanPlainLine(StartLine(st), s, i, body);
      assert !IsDigit(body[0]);
      ScanRaw(ScanChar(StartLine(st), body[0]), body[1..]);
    }
  }

  /** The last line of a reply. */
  lemma ScanLastLine(st: Scan, s: seq<int>, i: nat, code: nat, text: seq<int>)
    requires 100 <= code <= 999 && Plain(text) && StandsAt(s, i, LastBytes(code, text))
    ensures var e := ScanLine(StartLine(st), s, i);
            && e == Ended(ScanChars(StartLine(st), Decimal(code) + [SPACE] + text + [CR]), i + |LastBytes(code, text)|)
            && e.st.code == code && e.st.n == code / 100 && e.st.continuation == st.continuation
  {
    var head := Decimal(code) + [SPACE];
    var body := head + (text + [CR]);
    assert LastBytes(code, text) == body + [LF] && body == Decimal(code) + [SPACE] + text + [CR];
    StandsSplit(s, i, body, [LF]);
    DecimalIsPlain(code);
    ScanPlainLine(StartLine(st), s, i, body);
    ScanCharsAppend(StartLine(st), head, text + [CR]);
    ScanCode(st, code, SPACE);
    ScanTail(ScanChars(StartLine(st), head), text + [CR]);
  }

  /** The rest of a reply whose first line has been read, or a whole one. */
  lemma {:induction false} ScanRestOfReply(st: Scan, original: int, s: seq<int>, i: nat, code: nat,
                                           lines: seq<Line>, last: seq<int>)
    requires 100 <= code <= 999 && Plain(last) && forall k :: 0 <= k < |lines| ==> GoodLine(lines[k])
    requires StandsAt(s, i, LinesBytes(code, lines) + LastBytes(code, last)) && i <= |s|
    requires if st.continuation == 0 then original == 0 && (lines != [] ==> lines[0].Marked?) else original == code
    ensures var o := ScanReply(st, original, s, i);
            && o.Got? && o.n == code / 100 && o.code == code && (o.lost <==> code == 421)
            && o.next == i + |LinesBytes(code, lines) + LastBytes(code, last)|
    decreases |lines|
  {
    hide LineBytes, LastBytes, ScanLine, GoodLine, Plain, StandsAt, Decimal;
    if lines == [] {
      NoLines(code, last);
      ReplyStep(st, original, s, i);
      ScanLastLine(st, s, i, code, last);
    } else {
      var l, rest := lines[0], lines[1..];
      var tail := LinesBytes(code, rest) + LastBytes(code, last);
      assert LinesBytes(code, lines) == LineBytes(code, l) + LinesBytes(code, rest);
      hide LinesBytes, ScanReply;
      ReplyStep(st, original, s, i);
      Assoc(LineBytes(code, l), LinesBytes(code, rest), LastBytes(code, last));
      StandsSplit(s, i, LineBytes(code, l), tail);
      ScanInnerLine(st, s, i, code, l);
      var e := ScanLine(StartLine(st), s, i);
      ScanRestOfReply(e.st, code, s, e.next, code, rest, last);
    }
  }

  lemma NoLines(code: nat, last: seq<int>)
    ensures LinesBytes(code, []) + LastBytes(code, last) == LastBytes(code, last)
  {
  }

  /** getreply consumes exactly one reply, wherever it stands in the stream,
      and returns its first digit and its code. */
  lemma OneReplyPerCall(s: seq<int>, i: nat, r: Reply)
    requires GoodReply(r) && StandsAt(s, i, ReplyBytes(r))
    ensures var o := ScanReply(Blank, 0, s, i);
            && o.Got? && o.n == r.code / 100 && o.code == r.code && o.next == i + |ReplyBytes(r)|
            && (o.lost <==> r.code == 421)
  {
    ScanRestOfReply(Blank, 0, s, i, r.code, r.lines, r.last);
  }

  lemma StandsAfter(front: seq<int>, part: seq<int>, tail: seq<int>)
    ensures StandsAt(front + (part + tail), |front|, part)
  {
  }

  function StreamOf(rs: seq<Reply>): seq<int> {
    if rs == [] then [] else StreamOf(rs[..|rs| - 1]) + ReplyBytes(rs[|rs| - 1])
  }

  lemma {:induction false} StreamUpTo(rs: seq<Reply>, i: nat, tail: seq<int>)
    requires i < |rs|
    ensures StandsAt(StreamOf(rs) + tail, |StreamOf(rs[..i])|, ReplyBytes(rs[i]))
    ensures |StreamOf(rs[..i + 1])| == |StreamOf(rs[..i])| + |ReplyBytes(rs[i])|
    decreases |rs|
  {
    var n := |rs| - 1;
    var front, next := StreamOf(rs[..n]), ReplyBytes(rs[n]);
    assert StreamOf(rs) == front + next;
    Assoc(front, next, tail);
    StandsAfter(front, next, tail);
    hide ReplyBytes, StreamOf, StandsAt;
    if i < n {
      StreamUpTo(rs[..n], i, next + tail);
      assert rs[..n][..i] == rs[..i] && rs[..n][..i + 1] == rs[..i + 1];
    } else {
      assert rs[..i + 1] == rs;
    }
  }

  /** Over any sequence of replies the client never loses step: as long as no
      earlier reply was a 421, on which it gives up the connection, call
      number i starts at reply i, consumes exactly it, returns its digit and
      code, and gives up exactly on a 421. */
  lemma RepliesNeverLoseStep(rs: seq<Reply>, tail: seq<int>, i: nat)
    requires i < |rs| && forall k :: 0 <= k < |rs| ==> GoodReply(rs[k])
    requires forall k :: 0 <= k < i ==> rs[k].code != 421
    ensures |StreamOf(rs[..i])| <= |StreamOf(rs) + tail|
    ensures ScanReply(Blank, 0, StreamOf(rs) + tail, |StreamOf(rs[..i])|).Got?
    ensures var o := ScanReply(Blank, 0, StreamOf(rs) + tail, |StreamOf(rs[..i])|);
            && o.n == rs[i].code / 100 && o.code == rs[i].code && o.next == |StreamOf(rs[..i + 1])|
            && (o.lost <==> rs[i].code == 421)
  {
    StreamUpTo(rs, i, tail);
    OneReplyPerCall(StreamOf(rs) + tail, |StreamOf(rs[..i])|, rs[i]);
  }

  // ---------------------------------------------------------------------
  // A whole conversation

  /** Up to `n` calls of getreply from position `i` on, ending with a lost
      connection: their codes and where the stream is left. */
  function Calls(s: seq<int>, i: nat, n: nat): (seq<int>, nat)
    requires i <= |s|
    decreases n
  {
    if n == 0 then ([], i)
    else match ScanReply(Blank, 0, s, i)
      case Eof(_) => ([], i)
      case Got(_, code, lost, next, _) =>
        var (codes, end) := if lost then ([], next) else Calls(s, next, n - 1);
        ([code] + codes, end)
  }

  /** The replies up to the first 421 among them. */
  function Heard(rs: seq<Reply>): seq<Reply> {
    if rs == [] then [] else if rs[0].code == 421 then [rs[0]] else [rs[0]] + Heard(rs[1..])
  }

  function Codes(rs: seq<Reply>): seq<int> {
    if rs == [] then [] else [rs[0].code] + Codes(rs[1..])
  }

  function LengthOf(rs: seq<Reply>): nat {
    if rs == [] then 0 else |ReplyBytes(rs[0])| + LengthOf(rs[1..])
  }

  /** Replies standing one after the other. */
  predicate Stand(s: seq<int>, i: nat, rs: seq<Reply>)
    decreases |rs|
  {
    rs == [] || (GoodReply(rs[0]) && StandsAt(s, i, ReplyBytes(rs[0])) && Stand(s, i + |ReplyBytes(rs[0])|, rs[1..]))
  }

  /** As many calls as there are replies hear exactly the replies up to the
      first 421, and leave the stream right behind them. */
  lemma {:induction false} ConversationInStep(s: seq<int>, i: nat, rs: seq<Reply>)
    requires i <= |s| && Stand(s, i, rs)
    ensures Calls(s, i, |rs|) == (Codes(Heard(rs)), i + LengthOf(Heard(rs)))
    decreases |rs|
  {
    hide ReplyBytes, ScanReply, GoodReply, Codes, LengthOf, Calls, StandsAt;
    if rs == [] {
      NoCalls(s, i);
      NoneHeard();
    } else {
      var r, rest := rs[0], rs[1..];
      OneReplyPerCall(s, i, r);
      CallsStep(s, i, |rs|);
      assert Heard(rs) == [r] + if r.code == 421 then [] else Heard(rest);
      hide Heard;
      if r.code == 421 {
        JustOne(r);
      } else {
        ConversationInStep(s, i + |ReplyBytes(r)|, rest);
        OneMore(r, Heard(rest));
      }
    }
  }

  lemma NoneHeard()
    ensures Heard([]) == [] && Codes([]) == [] && LengthOf([]) == 0
  {
  }

  lemma JustOne(r: Reply)
    ensures [r] + [] == [r] && Codes([r]) == [r.code] && LengthOf([r]) == |ReplyBytes(r)|
  {
    hide ReplyBytes;
    assert [r][1..] == [];
  }

  lemma NoCalls(s: seq<int>, i: nat)
    requires i <= |s|
    ensures Calls(s, i, 0) == ([], i)
  {
  }

  lemma CallsStep(s: seq<int>, i: nat, n: nat)
    requires i <= |s| && n > 0 && ScanReply(Blank, 0, s, i).Got?
    ensures var o := ScanReply(Blank, 0, s, i);
            && (o.lost ==> Calls(s, i, n) == ([o.code], o.next))
            && (!o.lost ==> Calls(s, i, n) == ([o.code] + Calls(s, o.next, n - 1).0, Calls(s, o.next, n - 1).1))
  {
    hide ScanReply;
    var o := ScanReply(Blank, 0, s, i);
    assert [o.code] + [] == [o.code];
  }

  lemma OneMore(r: Reply, rs: seq<Reply>)
    ensures Codes([r] + rs) == [r.code] + Codes(rs) && LengthOf([r] + rs) == |ReplyBytes(r)| + LengthOf(rs)
  {
    hide ReplyBytes;
    assert ([r] + rs)[1..] == rs;
  }
}
