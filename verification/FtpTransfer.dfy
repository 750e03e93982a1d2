/** The ASCII loops of the ftp server and client. */
module FtpTransfer {
  import opened FirstSeen
  import opened NvtAscii
  import opened Streams

  // ---------------------------------------------------------------------
  // Senders

  lemma EncodeRest(x: seq<int>, i: nat)
    requires i < |x|
    ensures Encode(x[i..]) == EncodeOne(x[i]) + Encode(x[i + 1..])
  {
    assert x[i..][1..] == x[i + 1..];
  }

  lemma SendStep(sent: seq<int>, x: seq<int>, i: nat)
    requires i < |x|
    ensures sent + Encode(x[i..]) == (if x[i] == LF then sent + [CR] + [LF] else sent + [x[i]]) + Encode(x[i + 1..])
  {
    EncodeRest(x, i);
    Assoc(sent, EncodeOne(x[i]), Encode(x[i + 1..]));
    assert sent + [CR] + [LF] == sent + [CR, LF];
  }

  lemma EncodeNone(x: seq<int>)
    ensures Encode(x[|x|..]) == []
  {
  }

  /** send_data, the file mapped into memory. */
  method SendMapped(buf: seq<int>, outstr: OutStream) returns (byteCount: nat)
    modifies outstr
    ensures outstr.bytes == old(outstr.bytes) + Encode(buf) && byteCount == |buf|
  {
    byteCount := 0;
    var len := 0;
    assert buf[0..] == buf;
    EncodeNone(buf);
    hide Encode;
    while len < |buf|
      invariant 0 <= len <= |buf| && byteCount == len
      invariant outstr.bytes + Encode(buf[len..]) == old(outstr.bytes) + Encode(buf)
    {
      SendStep(outstr.bytes, buf, len);
      byteCount := byteCount + 1;
      if buf[len] == LF {
        outstr.Putc(CR);
      }
      outstr.Putc(buf[len]);
      len := len + 1;
    }
  }

  /** send_data, byte by byte. */
  method SendBytes(instr: InStream, outstr: OutStream) returns (byteCount: nat)
    requires instr.Valid()
    modifies instr, outstr
    ensures instr.Valid() && instr.pos == |instr.data|
    ensures outstr.bytes == old(outstr.bytes) + Encode(instr.data[old(instr.pos)..])
    ensures byteCount == |instr.data| - old(instr.pos)
  {
    byteCount := 0;
    ghost var x := instr.data;
    EncodeNone(x);
    hide Encode;
    var c := instr.Getc();
    ghost var next := old(instr.pos);
    while c != EOF
      invariant instr.Valid() && next <= |x| && byteCount == next - old(instr.pos)
      invariant if c == EOF then next == |x| == instr.pos else next < |x| && c == x[next] && instr.pos == next + 1
      invariant outstr.bytes + Encode(x[next..]) == old(outstr.bytes) + Encode(x[old(instr.pos)..])
      decreases |x| - next
    {
      SendStep(outstr.bytes, x, next);
      byteCount := byteCount + 1;
      if c == LF {
        outstr.Putc(CR);
      }
      outstr.Putc(c);
      c := instr.Getc();
      next := next + 1;
    }
    assert x[next..] == [];
  }

  /** sendrequest: `bytes` counts what goes over the wire. */
  method SendRequest(fin: InStream, dout: OutStream) returns (bytes: nat)
    requires fin.Valid()
    modifies fin, dout
    ensures dout.bytes == old(dout.bytes) + Encode(fin.data[old(fin.pos)..])
    ensures bytes == |Encode(fin.data[old(fin.pos)..])|
  {
    bytes := 0;
    ghost var x := fin.data;
    EncodeNone(x);
    hide Encode;
    var c := fin.Getc();
    ghost var next := old(fin.pos);
    while c != EOF
      invariant fin.Valid() && next <= |x| && bytes == |dout.bytes| - |old(dout.bytes)|
      invariant if c == EOF then next == |x| == fin.pos else next < |x| && c == x[next] && fin.pos == next + 1
      invariant dout.bytes + Encode(x[next..]) == old(dout.bytes) + Encode(x[old(fin.pos)..])
      decreases |x| - next
    {
      SendStep(dout.bytes, x, next);
      if c == LF {
        dout.Putc(CR);
        bytes := bytes + 1;
      }
      dout.Putc(c);
      bytes := bytes + 1;
      c := fin.Getc();
      next := next + 1;
    }
    assert x[next..] == [];
  }

  /** sizecmd for an ASCII transfer. */
  method SizeCmd(fin: InStream) returns (count: nat)
    requires fin.Valid() && fin.pos == 0
    modifies fin
    ensures count == |Encode(fin.data)|
  {
    count := 0;
    ghost var x := fin.data;
    assert x[0..] == x;
    var c := fin.Getc();
    ghost var next := 0;
    while c != EOF
      invariant fin.Valid() && next <= |x|
      invariant if c == EOF then next == |x| == fin.pos else next < |x| && c == x[next] && fin.pos == next + 1
      invariant count + |Encode(x[next..])| == |Encode(x)|
      decreases |x| - next
    {
      EncodeRest(x, next);
      if c == LF {
        count := count + 1;
      }
      count := count + 1;
      c := fin.Getc();
      next := next + 1;
    }
    assert x[next..] == [];
  }

  // ---------------------------------------------------------------------
  // Receivers

  lemma DecodeRest(w: seq<int>, i: nat, keepCr: bool)
    requires i < |w|
    ensures w[i] != CR ==> Decode(w[i..], keepCr) == [w[i]] + Decode(w[i + 1..], keepCr)
    ensures w[i] == CR && i + 1 == |w| ==> Decode(w[i..], keepCr) == [CR]
    ensures w[i] == CR && i + 1 < |w| && w[i + 1] == LF && !keepCr ==>
              Decode(w[i..], keepCr) == Decode(w[i + 1..], keepCr)
    ensures w[i] == CR && i + 1 < |w| && w[i + 1] == NUL ==> Decode(w[i..], keepCr) == [CR] + Decode(w[i + 2..], keepCr)
    ensures w[i] == CR && i + 1 < |w| && w[i + 1] != NUL && (w[i + 1] != LF || keepCr) ==>
              Decode(w[i..], keepCr) == [CR] + Decode(w[i + 1..], keepCr)
  {
    assert w[i..][1..] == w[i + 1..];
    if i + 1 < |w| {
      assert w[i..][2..] == w[i + 2..] == w[i + 1..][1..];
    } else {
      assert w[i + 1..] == [];
    }
  }

  /** After the first `n` bytes the next LF would not be part of a pair. */
  predicate Between(w: seq<int>, n: nat)
    requires n <= |w|
  {
    n == |w| || n == 0 || w[n - 1] != CR
  }

  lemma BareStep(w: seq<int>, n: nat)
    requires n < |w| && Between(w, n)
    ensures BareLfs(w, n + 1) == BareLfs(w, n) + if w[n] == LF then 1 else 0
  {
  }

  lemma NoBareYet(w: seq<int>)
    ensures w[0..] == w && BareLfs(w, 0) == 0
  {
  }

  /** How a receiver's loop over a run of CRs leaves things: `from` is the
      first CR, `to` the input position, `before` and `after` the output. */
  ghost predicate AfterRun(w: seq<int>, keepCr: bool, from: nat, to: nat, dropped: bool,
                           before: seq<int>, after: seq<int>)
    requires from < |w|
  {
    && from < to <= |w|
    && BareLfs(w, to) == BareLfs(w, from + 1)
    && before + Decode(w[from..], keepCr) == after + Decode(w[if dropped then to else to - 1..], keepCr)
    && (dropped ==> Between(w, to))
  }

  lemma RunStarts(w: seq<int>, keepCr: bool, from: nat, out: seq<int>)
    requires from < |w|
    ensures AfterRun(w, keepCr, from, from + 1, false, out, out)
  {
  }

  /** One CR of the run, what follows it being read as well. */
  lemma RunStep(w: seq<int>, keepCr: bool, from: nat, to: nat, before: seq<int>, after: seq<int>)
    requires from < |w| && AfterRun(w, keepCr, from, to, false, before, after) && w[to - 1] == CR
    ensures to == |w| ==> AfterRun(w, keepCr, from, to, true, before, after + [CR])
    ensures to < |w| && w[to] == NUL ==> AfterRun(w, keepCr, from, to + 1, true, before, after + [CR])
    ensures to < |w| && w[to] == LF && !keepCr ==> AfterRun(w, keepCr, from, to + 1, false, before, after)
    ensures to < |w| && w[to] != NUL && (w[to] != LF || keepCr) ==>
              AfterRun(w, keepCr, from, to + 1, false, before, after + [CR])
  {
    DecodeRest(w, to - 1, keepCr);
    assert to < |w| ==> BareLfs(w, to + 1) == BareLfs(w, to);
    hide Decode, BareLfs;
    if to == |w| {
      DecodeNone(w, keepCr);
    }
  }

  /** The character after the run. */
  lemma RunEnds(w: seq<int>, keepCr: bool, from: nat, to: nat, before: seq<int>, after: seq<int>)
    requires from < |w| && AfterRun(w, keepCr, from, to, false, before, after) && w[to - 1] != CR
    ensures AfterRun(w, keepCr, from, to, true, before, after + [w[to - 1]])
  {
    DecodeRest(w, to - 1, keepCr);
    hide Decode, BareLfs;
    Assoc(after, [w[to - 1]], Decode(w[to..], keepCr));
  }

  lemma DecodeNone(w: seq<int>, keepCr: bool)
    ensures Decode(w[|w|..], keepCr) == []
  {
  }

  /** receive_data: the inner loop, entered with `first` just read. */
  method ReceiveRun(instr: InStream, outstr: OutStream, first: int) returns (c: int, dropped: bool)
    requires instr.Valid() && instr.pos > 0 && first == instr.data[instr.pos - 1]
    modifies instr, outstr
    ensures instr.Valid()
    ensures AfterRun(instr.data, false, old(instr.pos) - 1, instr.pos, dropped, old(outstr.bytes), outstr.bytes)
    ensures !dropped ==> c == instr.data[instr.pos - 1] != CR
  {
    hide AfterRun, Decode, BareLfs;
    c, dropped := first, false;
    ghost var w, from := instr.data, instr.pos - 1;
    RunStarts(w, false, from, outstr.bytes);
    while c == CR
      invariant instr.Valid() && from < instr.pos
      invariant AfterRun(w, false, from, instr.pos, dropped, old(outstr.bytes), outstr.bytes)
      invariant dropped ==> c != CR
      invariant !dropped ==> c == w[instr.pos - 1]
      decreases |w| - instr.pos, c == CR
    {
      RunStep(w, false, from, instr.pos, old(outstr.bytes), outstr.bytes);
      c := instr.Getc();
      if c != LF {
        outstr.Putc(CR);
        if c == NUL || c == EOF {
          dropped := true;
          break;
        }
      }
    }
  }

  /** receive_data: what follows the counting of a bare LF in one round. */
  method ReceiveOne(instr: InStream, outstr: OutStream, first: int)
    requires instr.Valid() && instr.pos > 0 && first == instr.data[instr.pos - 1]
    modifies instr, outstr
    ensures instr.Valid() && old(instr.pos) <= instr.pos && Between(instr.data, instr.pos)
    ensures BareLfs(instr.data, instr.pos) == BareLfs(instr.data, old(instr.pos))
    ensures outstr.bytes + Decode(instr.data[instr.pos..], false)
            == old(outstr.bytes) + Decode(instr.data[old(instr.pos) - 1..], false)
  {
    hide Decode, BareLfs;
    var c, dropped := ReceiveRun(instr, outstr, first);
    if !dropped {
      RunEnds(instr.data, false, old(instr.pos) - 1, instr.pos, old(outstr.bytes), outstr.bytes);
      outstr.Putc(c);
    }
  }

  /** receive_data */
  method ReceiveData(instr: InStream, outstr: OutStream) returns (bareLfs: nat)
    requires instr.Valid() && instr.pos == 0
    modifies instr, outstr
    ensures outstr.bytes == old(outstr.bytes) + Decode(instr.data, false)
    ensures bareLfs == BareLfs(instr.data, |instr.data|)
  {
    bareLfs := 0;
    ghost var w := instr.data;
    ghost var all := old(outstr.bytes) + Decode(w, false);
    assert w[0..] == w && BareLfs(w, 0) == 0;
    hide Decode, BareLfs;
    ghost var done := 0;
    var c := instr.Getc();
    while c != EOF
      invariant instr.Valid() && done <= |w| && Between(w, done)
      invariant if c == EOF then done == |w| else instr.pos == done + 1 && c == w[done]
      invariant bareLfs == BareLfs(w, done) && outstr.bytes + Decode(w[done..], false) == all
      decreases |w| - done
    {
      if c == LF {
        bareLfs := bareLfs + 1;
      }
      BareStep(w, done);
      ReceiveOne(instr, outstr, c);
      done := instr.pos;
      c := instr.Getc();
    }
    DecodeNone(w, false);
  }

  /** recvrequest: the inner loop; `bytes` counts what it reads. */
  method RecvRun(din: InStream, fout: OutStream, first: int, keepCr: bool) returns (c: int, dropped: bool, bytes: nat)
    requires din.Valid() && din.pos > 0 && first == din.data[din.pos - 1]
    modifies din, fout
    ensures din.Valid()
    ensures AfterRun(din.data, keepCr, old(din.pos) - 1, din.pos, dropped, old(fout.bytes), fout.bytes)
    ensures !dropped ==> c == din.data[din.pos - 1] != CR
    ensures bytes == din.pos - old(din.pos) + if dropped then 1 else 0
  {
    hide AfterRun, Decode, BareLfs;
    c, dropped, bytes := first, false, 0;
    ghost var w, from := din.data, din.pos - 1;
    RunStarts(w, keepCr, from, fout.bytes);
    while c == CR
      invariant din.Valid() && from < din.pos
      invariant AfterRun(w, keepCr, from, din.pos, dropped, old(fout.bytes), fout.bytes)
      invariant dropped ==> c != CR
      invariant !dropped ==> c == w[din.pos - 1]
      invariant bytes == din.pos - (from + 1) + if dropped then 1 else 0
      decreases |w| - din.pos, c == CR
    {
      RunStep(w, keepCr, from, din.pos, old(fout.bytes), fout.bytes);
      bytes := bytes + 1;
      c := din.Getc();
      if c != LF || keepCr {
        fout.Putc(CR);
        if c == NUL {
          bytes := bytes + 1;
          dropped := true;
          break;
        }
        if c == EOF {
          dropped := true;
          break;
        }
      }
    }
  }

  /** recvrequest: what follows the counting of a bare LF in one round. */
  method RecvOne(din: InStream, fout: OutStream, first: int, keepCr: bool) returns (bytes: nat)
    requires din.Valid() && din.pos > 0 && first == din.data[din.pos - 1]
    modifies din, fout
    ensures din.Valid() && old(din.pos) <= din.pos && Between(din.data, din.pos)
    ensures bytes == din.pos - old(din.pos) + 1
    ensures BareLfs(din.data, din.pos) == BareLfs(din.data, old(din.pos))
    ensures fout.bytes + Decode(din.data[din.pos..], keepCr)
            == old(fout.bytes) + Decode(din.data[old(din.pos) - 1..], keepCr)
  {
    hide Decode, BareLfs;
    var c, dropped;
    c, dropped, bytes := RecvRun(din, fout, first, keepCr);
    if !dropped {
      RunEnds(din.data, keepCr, old(din.pos) - 1, din.pos, old(fout.bytes), fout.bytes);
      fout.Putc(c);
      bytes := bytes + 1;
    }
  }

  /** recvrequest; `keepCr` is its tcrflag. */
  method RecvRequest(din: InStream, fout: OutStream, keepCr: bool) returns (bytes: nat, bareLfs: nat)
    requires din.Valid() && din.pos == 0
    modifies din, fout
    ensures fout.bytes == old(fout.bytes) + Decode(din.data, keepCr)
    ensures bytes == |din.data|
    ensures bareLfs == BareLfs(din.data, |din.data|)
  {
    hide Decode, BareLfs;
    bytes, bareLfs := 0, 0;
    ghost var w := din.data;
    ghost var all := old(fout.bytes) + Decode(w, keepCr);
    NoBareYet(w);
    ghost var done := 0;
    var c := din.Getc();
    while c != EOF
      invariant din.Valid() && done <= |w| && Between(w, done) && bytes == done
      invariant if c == EOF then done == |w| else din.pos == done + 1 && c == w[done]
      invariant bareLfs == BareLfs(w, done) && fout.bytes + Decode(w[done..], keepCr) == all
      decreases |w| - done
    {
      if c == LF {
        bareLfs := bareLfs + 1;
      }
      BareStep(w, done);
      var read := RecvOne(din, fout, c, keepCr);
      bytes := bytes + read;
      done := din.pos;
      c := din.Getc();
    }
    DecodeNone(w, keepCr);
  }

  // ---------------------------------------------------------------------
  // Restart

  /** retrieve: skipping to the restart point. */
  method SkipServer(fin: InStream, restartPoint: int) returns (ok: bool)
    requires fin.Valid() && fin.pos == 0
    modifies fin
    ensures fin.Valid()
    ensures ok <==> restartPoint <= |Encode(fin.data)|
    ensures ok ==> SkipsTo(fin.data, restartPoint, fin.pos)
  {
    ghost var x := fin.data;
    var i := 0;
    assert x[..0] == [];
    while true
      invariant fin.Valid() && i == |Encode(x[..fin.pos])|
      invariant fin.pos > 0 ==> |Encode(x[..fin.pos - 1])| < restartPoint
      decreases |x| - fin.pos
    {
      if i >= restartPoint {
        break;
      }
      i := i + 1;
      SkipStep(x, fin.pos);
      var c := fin.Getc();
      if c == EOF {
        return false;
      }
      if c == LF {
        i := i + 1;
      }
    }
    SkipNeedsLength(x, restartPoint, fin.pos);
    return true;
  }

  lemma SkipStep(x: seq<int>, pos: nat)
    requires pos <= |x|
    ensures pos == |x| ==> Encode(x[..pos]) == Encode(x)
    ensures pos < |x| ==> |Encode(x[..pos + 1])| == |Encode(x[..pos])| + |EncodeOne(x[pos])|
  {
    assert x[..|x|] == x;
    if pos < |x| {
      EncodeStep(x, pos);
    }
  }

  /** recvrequest: seeking to the restart point in the local file. */
  method SkipClient(fout: InStream, restartPoint: int) returns (ok: bool)
    requires fout.Valid() && fout.pos == 0
    modifies fout
    ensures fout.Valid()
    ensures ok <==> restartPoint <= |Encode(fout.data)|
    ensures ok ==> SkipsTo(fout.data, restartPoint, fout.pos)
  {
    ghost var y := fout.data;
    var i := 0;
    assert y[..0] == [];
    while true
      invariant fout.Valid() && i == |Encode(y[..fout.pos])|
      invariant fout.pos > 0 ==> |Encode(y[..fout.pos - 1])| < restartPoint
      decreases |y| - fout.pos
    {
      if i >= restartPoint {
        break;
      }
      i := i + 1;
      SkipStep(y, fout.pos);
      var ch := fout.Getc();
      if ch == EOF {
        return false;
      }
      if ch == LF {
        i := i + 1;
      }
    }
    SkipNeedsLength(y, restartPoint, fout.pos);
    return true;
  }

  const IU_MMAP_SIZE := 0x80_0000

  /** retrieve in ASCII mode: the final reply code and the bytes sent.
      `mapped` says that mmap succeeds. */
  method Retrieve(fin: InStream, dout: OutStream, restartPoint: int, mapped: bool) returns (code: int)
    requires fin.Valid() && fin.pos == 0
    modifies fin, dout
    ensures code == 554 <==> restartPoint > |Encode(fin.data)|
    ensures code == 554 ==> dout.bytes == old(dout.bytes)
    ensures code != 554 ==> code == 226 && exists k: nat ::
              SkipsTo(fin.data, restartPoint, k) && dout.bytes == old(dout.bytes) + Encode(fin.data[k..])
  {
    ghost var x := fin.data;
    assert x[..0] == [] && x[0..] == x;
    if restartPoint != 0 {
      var ok := SkipServer(fin, restartPoint);
      if !ok {
        return 554;
      }
    }
    assert SkipsTo(x, restartPoint, fin.pos);
    if 0 < |fin.data| < IU_MMAP_SIZE && restartPoint == 0 && mapped {
      var _ := SendMapped(fin.data, dout);
    } else {
      var _ := SendBytes(fin, dout);
    }
    return 226;
  }

  /** A whole transfer: what the client stores and counts is what the file on
      the server and SIZE call for. */
  method Download(file: seq<int>, mapped: bool) returns (stored: seq<int>, bytes: nat, bareLfs: nat, size: nat)
    requires IsBytes(file)
    ensures stored == WithoutNuls(file, 0)
    ensures stored == file <==> forall i :: 0 <= i < |file| ==> !NulAfterCr(file, i)
    ensures bareLfs == 0 && bytes == size
  {
    var fin := new InStream(file);
    var dout := new OutStream();
    var code := Retrieve(fin, dout, 0, mapped);
    ghost var k: nat :| SkipsTo(file, 0, k) && dout.bytes == [] + Encode(file[k..]);
    assert k == 0 && file[0..] == file;
    assert dout.bytes == Encode(file);
    EncodedBytes(file);
    var din := new InStream(dout.bytes);
    var fout := new OutStream();
    bytes, bareLfs := RecvRequest(din, fout, false);
    stored := fout.bytes;
    TransferRoundTrip(file);
    EncodedHasNoBareLf(file, |Encode(file)|);
    var again := new InStream(file);
    size := SizeCmd(again);
  }

  /** The other way: the client sends, the server stores. */
  method Upload(file: seq<int>) returns (stored: seq<int>, bytes: nat, bareLfs: nat)
    requires IsBytes(file)
    ensures stored == WithoutNuls(file, 0)
    ensures stored == file <==> forall i :: 0 <= i < |file| ==> !NulAfterCr(file, i)
    ensures bareLfs == 0 && bytes == |Encode(file)|
  {
    var fin := new InStream(file);
    var dout := new OutStream();
    bytes := SendRequest(fin, dout);
    assert file[0..] == file && dout.bytes == Encode(file);
    EncodedBytes(file);
    var din := new InStream(dout.bytes);
    var fout := new OutStream();
    bareLfs := ReceiveData(din, fout);
    stored := fout.bytes;
    TransferRoundTrip(file);
    EncodedHasNoBareLf(file, |Encode(file)|);
  }

  /** The local file agrees with the remote one up to the restart point, which
      is at character `k`, and no NUL directly follows a CR after that. */
  predicate Resumable(file: seq<int>, local: seq<int>, restartPoint: int, k: nat) {
    && SkipsTo(file, restartPoint, k) && k <= |local| && local[..k] == file[..k]
    && forall i :: 0 <= i < |file| - k ==> !NulAfterCr(file[k..], i)
  }

  /** An interrupted download resumed: both sides skip by the same REST value,
      and the local file that agrees with the remote one up to there is
      completed. */
  method Resume(file: seq<int>, local: seq<int>, restartPoint: int, mapped: bool) returns (ok: bool, result: seq<int>)
    requires IsBytes(file) && IsBytes(local)
    ensures !ok ==> result == local
    ensures forall k: nat :: Resumable(file, local, restartPoint, k) ==>
              ok && |file| <= |result| && result[..|file|] == file
  {
    hide Encode, Decode, BareLfs, NulAfterCr;
    var fin := new InStream(file);
    var dout := new OutStream();
    var code := Retrieve(fin, dout, restartPoint, mapped);
    var fout := new InStream(local);
    var skipped := SkipClient(fout, restartPoint);
    forall k: nat | Resumable(file, local, restartPoint, k)
      ensures code != 554 && skipped && fout.pos == k
    {
      SameSkip(file, local, restartPoint, k, fout.pos, skipped);
    }
    if code == 554 || !skipped {
      return false, local;
    }
    ghost var k: nat :| SkipsTo(file, restartPoint, k) && dout.bytes == [] + Encode(file[k..]);
    EncodedBytes(file[k..]);
    var din := new InStream(dout.bytes);
    var written := new OutStream();
    var _, _ := RecvRequest(din, written, false);
    ok, result := true, WrittenAt(local, fout.pos, written.bytes);
    assert dout.bytes == Encode(file[k..]) && written.bytes == Decode(Encode(file[k..]), false);
    forall j: nat | Resumable(file, local, restartPoint, j)
      ensures |file| <= |result| && result[..|file|] == file
    {
      SkipIsUnique(file, restartPoint, j, k);
      ResumeIsExact(file, local, restartPoint, k, fout.pos);
    }
  }

  /** Files that agree up to the place skipped to are skipped alike. */
  lemma SameSkip(x: seq<int>, y: seq<int>, n: int, k: nat, k': nat, skipped: bool)
    requires SkipsTo(x, n, k) && k <= |y| && y[..k] == x[..k]
    requires (skipped <==> n <= |Encode(y)|) && (skipped ==> SkipsTo(y, n, k'))
    ensures n <= |Encode(x)| && skipped && k' == k
  {
    hide Encode, SkipsTo;
    SkipNeedsLength(x, n, k);
    SkipsAlike(x, y, n, k);
    SkipNeedsLength(y, n, k);
    SkipIsUnique(y, n, k, k');
  }

  lemma SkipsAlike(x: seq<int>, y: seq<int>, n: int, k: nat)
    requires SkipsTo(x, n, k) && k <= |y| && y[..k] == x[..k]
    ensures SkipsTo(y, n, k)
  {
    hide Encode;
    if k > 0 {
      PrefixOfPrefix(x, k);
      PrefixOfPrefix(y, k);
    }
  }

  lemma PrefixOfPrefix(x: seq<int>, k: nat)
    requires 0 < k <= |x|
    ensures x[..k - 1] == x[..k][..k - 1]
  {
  }

  lemma {:induction false} EncodedBytes(x: seq<int>)
    requires IsBytes(x)
    ensures IsBytes(Encode(x))
  {
    if x != [] {
      assert IsBytes(x[1..]);
      EncodedBytes(x[1..]);
    }
  }
}
