/** The byte encoding of ASCII transfers and what it promises. */
module NvtAscii {
  import opened FirstSeen

  const LF := 10
  const CR := 13
  const NUL := 0

  /** A file on the wire: every LF preceded by a CR, all else as it is. */
  function Encode(x: seq<int>): seq<int> {
    if x == [] then [] else EncodeOne(x[0]) + Encode(x[1..])
  }

  function EncodeOne(c: int): seq<int> {
    if c == LF then [CR, LF] else [c]
  }

  /** What a receiver stores.  CR LF becomes LF unless `keepCr`, a NUL after a
      CR is dropped. */
  function Decode(w: seq<int>, keepCr: bool): seq<int>
    decreases |w|
  {
    if w == [] then []
    else if w[0] != CR || |w| == 1 then [w[0]] + Decode(w[1..], keepCr)
    else if w[1] == LF && !keepCr then [LF] + Decode(w[2..], keepCr)
    else if w[1] == NUL then [CR] + Decode(w[2..], keepCr)
    else [CR] + Decode(w[1..], keepCr)
  }

  /** The LFs among the first `n` bytes that no CR directly precedes. */
  function BareLfs(w: seq<int>, n: nat): nat
    requires n <= |w|
  {
    if n == 0 then 0 else BareLfs(w, n - 1) + if w[n - 1] == LF && (n == 1 || w[n - 2] != CR) then 1 else 0
  }

  /** Byte `i` is a NUL directly after a CR. */
  predicate NulAfterCr(x: seq<int>, i: nat)
    requires i < |x|
  {
    i > 0 && x[i - 1] == CR && x[i] == NUL
  }

  /** The bytes from `i` on without the NULs directly after a CR. */
  function WithoutNuls(x: seq<int>, i: nat): seq<int>
    requires i <= |x|
    decreases |x| - i
  {
    if i == |x| then [] else (if NulAfterCr(x, i) then [] else [x[i]]) + WithoutNuls(x, i + 1)
  }

  lemma {:induction false} EncodeAppend(a: seq<int>, b: seq<int>)
    ensures Encode(a + b) == Encode(a) + Encode(b)
  {
    if a == [] {
      assert a + b == b;
    } else {
      EncodeAppend(a[1..], b);
      assert (a + b)[0] == a[0] && (a + b)[1..] == a[1..] + b;
      Assoc(EncodeOne(a[0]), Encode(a[1..]), Encode(b));
    }
  }

  lemma EncodeStep(x: seq<int>, i: nat)
    requires i < |x|
    ensures Encode(x[..i + 1]) == Encode(x[..i]) + EncodeOne(x[i])
  {
    assert x[..i + 1] == x[..i] + [x[i]];
    EncodeAppend(x[..i], [x[i]]);
    assert Encode([x[i]]) == EncodeOne(x[i]) + Encode([]);
  }

  /** One step of decoding what was encoded. */
  lemma DecodeEncodeStep(x: seq<int>)
    requires x != []
    ensures Decode(Encode(x), false)
            == if x[0] == CR && |x| > 1 && x[1] == NUL then [CR] + Decode(Encode(x[2..]), false)
               else [x[0]] + Decode(Encode(x[1..]), false)
  {
    var e, rest := Encode(x), Encode(x[1..]);
    if x[0] == LF {
      assert e == [CR, LF] + rest && e[2..] == rest;
    } else {
      assert e == [x[0]] + rest && e[1..] == rest;
      if x[0] == CR && |x| > 1 {
        assert rest == EncodeOne(x[1]) + Encode(x[1..][1..]) && x[1..][1..] == x[2..];
        assert e[1] == EncodeOne(x[1])[0];
        if x[1] == NUL {
          assert e[2..] == rest[1..] == Encode(x[2..]);
        }
      }
    }
  }

  /** Byte `i` of a stream that a receiver does not store: a CR before an LF,
      unless CRs are kept, and a NUL directly after a CR. */
  predicate Dropped(w: seq<int>, i: nat, keepCr: bool)
    requires i < |w|
  {
    || (!keepCr && w[i] == 13 && i + 1 < |w| && w[i + 1] == 10)
    || (w[i] == 0 && i > 0 && w[i - 1] == 13)
  }

  /** The bytes from `i` on that are stored. */
  function Stored(w: seq<int>, i: nat, keepCr: bool): seq<int>
    requires i <= |w|
    decreases |w| - i
  {
    if i == |w| then [] else (if Dropped(w, i, keepCr) then [] else [w[i]]) + Stored(w, i + 1, keepCr)
  }

  lemma StoredStep(w: seq<int>, i: nat, keepCr: bool)
    requires i <= |w|
    ensures i == |w| ==> Stored(w, i, keepCr) == [] && w[i..] == []
    ensures i < |w| && Dropped(w, i, keepCr) ==> Stored(w, i, keepCr) == Stored(w, i + 1, keepCr)
    ensures i < |w| && !Dropped(w, i, keepCr) ==> Stored(w, i, keepCr) == [w[i]] + Stored(w, i + 1, keepCr)
    ensures i < |w| ==> w[i..] != [] && w[i..][0] == w[i] && w[i..][1..] == w[i + 1..]
    ensures i + 1 < |w| ==> w[i..][1] == w[i + 1] && w[i..][2..] == w[i + 2..]
  {
    if i < |w| {
      assert [] + Stored(w, i + 1, keepCr) == Stored(w, i + 1, keepCr);
    }
  }

  /** What is stored of any stream, from a byte that is no NUL after a CR. */
  lemma {:induction false} DecodeStores(w: seq<int>, i: nat, keepCr: bool)
    requires i <= |w| && !(0 < i < |w| && w[i] == 0 && w[i - 1] == 13)
    ensures Decode(w[i..], keepCr) == Stored(w, i, keepCr)
    decreases |w| - i
  {
    hide Decode, Stored;
    StoredStep(w, i, keepCr);
    DecodeStep(w[i..], keepCr);
    if i < |w| {
      if w[i] == CR && i + 1 < |w| && (w[i + 1] == NUL || (w[i + 1] == LF && !keepCr)) {
        StoredStep(w, i + 1, keepCr);
        DecodeStores(w, i + 2, keepCr);
      } else {
        DecodeStores(w, i + 1, keepCr);
      }
    }
  }

  lemma DecodeStep(w: seq<int>, keepCr: bool)
    ensures w == [] ==> Decode(w, keepCr) == []
    ensures w != [] && !(w[0] == CR && |w| > 1 && (w[1] == NUL || (w[1] == LF && !keepCr))) ==>
              Decode(w, keepCr) == [w[0]] + Decode(w[1..], keepCr)
    ensures |w| > 1 && w[0] == CR && w[1] == LF && !keepCr ==> Decode(w, keepCr) == [LF] + Decode(w[2..], keepCr)
    ensures |w| > 1 && w[0] == CR && w[1] == NUL ==> Decode(w, keepCr) == [CR] + Decode(w[2..], keepCr)
  {
  }

  /** Every stream, CRs kept or not: exactly the bytes that are not dropped
      are stored. */
  lemma StreamIsStored(w: seq<int>, keepCr: bool)
    ensures Decode(w, keepCr) == Stored(w, 0, keepCr)
  {
    assert w[0..] == w;
    DecodeStores(w, 0, keepCr);
  }

  lemma WithoutStep(x: seq<int>, i: nat)
    requires i <= |x|
    ensures i == |x| ==> WithoutNuls(x, i) == [] && x[i..] == []
    ensures i < |x| && NulAfterCr(x, i) ==> WithoutNuls(x, i) == WithoutNuls(x, i + 1)
    ensures i < |x| && !NulAfterCr(x, i) ==> WithoutNuls(x, i) == [x[i]] + WithoutNuls(x, i + 1)
    ensures i < |x| ==> x[i..] != [] && x[i..][0] == x[i] && x[i..][1..] == x[i + 1..]
    ensures i + 1 < |x| ==> x[i..][1] == x[i + 1] && x[i..][2..] == x[i + 2..]
  {
    if i < |x| {
      assert [] + WithoutNuls(x, i + 1) == WithoutNuls(x, i + 1);
    }
  }

  lemma {:induction false} DecodeEncodeFrom(x: seq<int>, i: nat)
    requires i <= |x| && (i == |x| || !NulAfterCr(x, i))
    ensures Decode(Encode(x[i..]), false) == WithoutNuls(x, i)
    decreases |x| - i
  {
    hide Encode, Decode, WithoutNuls;
    WithoutStep(x, i);
    if i < |x| {
      DecodeEncodeStep(x[i..]);
      if x[i] == CR && i + 1 < |x| && x[i + 1] == NUL {
        WithoutStep(x, i + 1);
        DecodeEncodeFrom(x, i + 2);
      } else {
        DecodeEncodeFrom(x, i + 1);
      }
    } else {
      NothingDecoded();
    }
  }

  lemma NothingDecoded()
    ensures Decode(Encode([]), false) == []
  {
  }

  lemma {:induction false} WithoutNulsShrinks(x: seq<int>, i: nat)
    requires i <= |x|
    ensures |WithoutNuls(x, i)| <= |x| - i
    ensures (exists j :: i <= j < |x| && NulAfterCr(x, j)) ==> |WithoutNuls(x, i)| < |x| - i
    ensures (forall j :: i <= j < |x| ==> !NulAfterCr(x, j)) ==> WithoutNuls(x, i) == x[i..]
    decreases |x| - i
  {
    if i < |x| {
      WithoutNulsShrinks(x, i + 1);
    }
  }

  /** A transfer removes exactly the NULs that directly follow a CR, so it is
      exact if and only if there is none. */
  lemma TransferRoundTrip(x: seq<int>)
    ensures Decode(Encode(x), false) == WithoutNuls(x, 0)
    ensures Decode(Encode(x), false) == x <==> forall i :: 0 <= i < |x| ==> !NulAfterCr(x, i)
  {
    assert x[0..] == x;
    DecodeEncodeFrom(x, 0);
    WithoutNulsShrinks(x, 0);
  }

  /** Nothing a sender emits looks like a bare LF. */
  lemma {:induction false} EncodedHasNoBareLf(x: seq<int>, n: nat)
    requires n <= |Encode(x)|
    ensures BareLfs(Encode(x), n) == 0
  {
    if n > 0 {
      EncodedHasNoBareLf(x, n - 1);
      if Encode(x)[n - 1] == LF {
        EncodedLfFollowsCr(x, n - 1);
      }
    }
  }

  lemma {:induction false} EncodedLfFollowsCr(x: seq<int>, i: nat)
    requires i < |Encode(x)| && Encode(x)[i] == LF
    ensures i > 0 && Encode(x)[i - 1] == CR
  {
    var head := EncodeOne(x[0]);
    if i >= |head| {
      EncodedLfFollowsCr(x[1..], i - |head|);
    }
  }

  // ---------------------------------------------------------------------
  // Restart

  /** The least number of characters whose encoding reaches `n` bytes. */
  predicate SkipsTo(x: seq<int>, n: int, k: nat) {
    && k <= |x|
    && n <= |Encode(x[..k])|
    && (k > 0 ==> |Encode(x[..k - 1])| < n)
  }

  lemma {:induction false} EncodeGrows(x: seq<int>, i: nat, j: nat)
    requires i <= j <= |x|
    ensures |Encode(x[..i])| + (j - i) <= |Encode(x[..j])|
    decreases j - i
  {
    if i < j {
      EncodeStep(x, i);
      EncodeGrows(x, i + 1, j);
    }
  }

  /** There is one such number if the encoding is long enough, else none. */
  lemma SkipIsUnique(x: seq<int>, n: int, k: nat, k': nat)
    requires SkipsTo(x, n, k) && SkipsTo(x, n, k')
    ensures k == k'
  {
    if k < k' {
      EncodeGrows(x, k, k' - 1);
    } else if k' < k {
      EncodeGrows(x, k', k - 1);
    }
  }

  lemma SkipNeedsLength(x: seq<int>, n: int, k: nat)
    requires SkipsTo(x, n, k)
    ensures n <= |Encode(x)|
  {
    EncodeGrows(x, k, |x|);
    assert x[..|x|] == x;
  }

  /** Writing `d` into the file `y` at offset `k`. */
  function WrittenAt(y: seq<int>, k: nat, d: seq<int>): seq<int>
    requires k <= |y|
  {
    y[..k] + d + (if k + |d| <= |y| then y[k + |d|..] else [])
  }

  /** The file is overwritten from the offset on and grows where it must. */
  lemma WrittenAtIs(y: seq<int>, k: nat, d: seq<int>)
    requires k <= |y|
    ensures var r := WrittenAt(y, k, d);
            && |r| == (if |y| > k + |d| then |y| else k + |d|)
            && forall i :: 0 <= i < |r| ==> r[i] == if k <= i < k + |d| then d[i - k] else y[i]
  {
  }

  /** Resuming at a common prefix is exact: both sides skip to the same
      character, and the received remainder completes the file. */
  lemma ResumeIsExact(x: seq<int>, y: seq<int>, n: int, k: nat, k': nat)
    requires SkipsTo(x, n, k) && SkipsTo(y, n, k')
    requires k <= |y| && y[..k] == x[..k]
    requires forall i :: 0 <= i < |x| - k ==> !NulAfterCr(x[k..], i)
    ensures k' == k
    ensures |x| <= |WrittenAt(y, k, Decode(Encode(x[k..]), false))|
    ensures WrittenAt(y, k, Decode(Encode(x[k..]), false))[..|x|] == x
  {
    assert k > 0 ==> y[..k - 1] == y[..k][..k - 1] == x[..k][..k - 1] == x[..k - 1];
    SkipIsUnique(y, n, k, k');
    TransferRoundTrip(x[k..]);
  }
}
