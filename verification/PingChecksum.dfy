/** The Internet checksum of an echo request (RFC 1071). */
module PingChecksum {
  import opened Streams

  /** A 16-bit load of two bytes on a host of either byte order. */
  function Word(little: bool, first: int, second: int): int {
    if little then first + 256 * second else 256 * first + second
  }

  /** The bytes of a 16-bit store. */
  function StoredBytes(little: bool, w: int): seq<int> {
    if little then [w % 256, w / 256] else [w / 256, w % 256]
  }

  /** The sum of a text's words, a last single byte being padded with zero. */
  function WordSum(little: bool, s: seq<int>): int {
    if s == [] then 0
    else if |s| == 1 then Word(little, s[0], 0)
    else Word(little, s[0], s[1]) + WordSum(little, s[2..])
  }

  /** Carries folded back in until there is none. */
  function Fold(s: nat): (f: nat)
    ensures f < 65536 && f <= s && (f == 0 <==> s == 0)
    decreases s
  {
    if s < 65536 then s else Fold(s % 65536 + s / 65536)
  }

  /** The checksum over all words, without any limit on their sum. */
  function Checksum(little: bool, s: seq<int>): (c: int)
    requires IsBytes(s)
    ensures 0 <= c < 65536
  {
    WordSumBounds(little, s);
    65535 - Fold(WordSum(little, s))
  }

  lemma {:induction false} WordSumBounds(little: bool, s: seq<int>)
    requires IsBytes(s)
    ensures 0 <= WordSum(little, s) <= 65535 * ((|s| + 1) / 2)
  {
    if |s| > 1 {
      WordSumBounds(little, s[2..]);
      assert (|s| + 1) / 2 == 1 + (|s[2..]| + 1) / 2;
    }
  }

  lemma {:induction false} WordSumSplit(little: bool, s: seq<int>, i: nat)
    requires i % 2 == 0 && i <= |s|
    ensures WordSum(little, s) == WordSum(little, s[..i]) + WordSum(little, s[i..])
    decreases i
  {
    if i == 0 {
      assert s[0..] == s;
    } else {
      WordSumSplit(little, s[2..], i - 2);
      assert s[2..][..i - 2] == s[..i][2..] && s[2..][i - 2..] == s[i..];
    }
  }

  /** The longest buffer whose words cannot overflow 32 bits. */
  const NO_OVERFLOW := 2 * 65537

  /** A 32-bit sum. */
  function Low32(x: int): (r: int)
    ensures 0 <= r < 0x1_0000_0000
  {
    x % 0x1_0000_0000
  }

  lemma LowAdd(a: int, b: int)
    ensures Low32(Low32(a) + b) == Low32(a + b)
  {
  }

  lemma NoOverflow(little: bool, s: seq<int>)
    requires IsBytes(s)
    ensures WordSum(little, s) >= 0
    ensures |s| <= NO_OVERFLOW ==> Low32(WordSum(little, s)) == WordSum(little, s)
  {
    WordSumBounds(little, s);
  }

  /** ft_checksum; the sum is kept in 32 bits */
  method FtChecksum(buf: array<int>, little: bool) returns (c: int)
    requires IsBytes(buf[..])
    ensures c == 65535 - Fold(Low32(WordSum(little, buf[..])))
    ensures buf.Length <= NO_OVERFLOW ==> c == Checksum(little, buf[..])
  {
    hide WordSum, Low32, Word, Fold;
    var p, len := 0, buf.Length;
    var sum := 0;
    ghost var s := buf[..];
    NoOverflow(little, s);
    Whole(s);
    while len > 1
      invariant 0 <= len && p + len == |s| && p % 2 == 0 && 0 <= p
      invariant sum == Low32(WordSum(little, s[..p]))
      decreases len
    {
      NextWord(little, s, p);
      LowAdd(WordSum(little, s[..p]), Word(little, s[p], s[p + 1]));
      sum := Low32(sum + Word(little, buf[p], buf[p + 1]));
      p := p + 2;
      len := len - 2;
    }
    if len == 1 {
      LastByte(little, s);
      LowAdd(WordSum(little, s[..p]), Word(little, s[p], 0));
      sum := Low32(sum + Word(little, buf[p], 0));
    }
    c := FoldCarries(sum);
    c := 65535 - c;
  }

  method FoldCarries(sum: nat) returns (f: int)
    ensures f == Fold(sum)
  {
    f := sum;
    while f / 65536 != 0
      invariant f >= 0 && Fold(f) == Fold(sum)
      decreases f
    {
      f := f % 65536 + f / 65536;
    }
  }

  lemma Whole(s: seq<int>)
    ensures s[..|s|] == s && s[..0] == [] && Low32(WordSum(true, [])) == 0 && Low32(WordSum(false, [])) == 0
  {
  }

  lemma NextWord(little: bool, s: seq<int>, i: nat)
    requires i % 2 == 0 && i + 1 < |s|
    ensures WordSum(little, s[..i + 2]) == WordSum(little, s[..i]) + Word(little, s[i], s[i + 1])
  {
    WordSumSplit(little, s[..i + 2], i);
    assert s[..i + 2][..i] == s[..i] && s[..i + 2][i..] == [s[i], s[i + 1]];
    assert [s[i], s[i + 1]][2..] == [];
  }

  lemma LastByte(little: bool, s: seq<int>)
    requires |s| % 2 == 1
    ensures WordSum(little, s) == WordSum(little, s[..|s| - 1]) + Word(little, s[|s| - 1], 0)
  {
    WordSumSplit(little, s, |s| - 1);
    assert s[|s| - 1..] == [s[|s| - 1]];
  }

  // ---------------------------------------------------------------------
  // What the fold computes

  lemma {:induction false} FoldQuotient(s: nat) returns (q: nat)
    ensures s == Fold(s) + 65535 * q
    decreases s
  {
    q := 0;
    if s >= 65536 {
      var r := FoldQuotient(s % 65536 + s / 65536);
      q := r + s / 65536;
    }
  }

  lemma Residue(x: int, r: int, q: int)
    requires x == r + 65535 * q && 0 <= r < 65535
    ensures x % 65535 == r
  {
  }

  /** Folding is reduction modulo 65535, with 65535 for nonzero multiples. */
  lemma FoldIsResidue(s: nat)
    ensures Fold(s) == if s == 0 then 0 else 1 + (s - 1) % 65535
  {
    var q := FoldQuotient(s);
    if s > 0 {
      Residue(s - 1, Fold(s) - 1, q);
    }
  }

  lemma FullFold(s: nat)
    ensures Fold(s) == 65535 <==> s > 0 && s % 65535 == 0
  {
    var f := Fold(s);
    var q := FoldQuotient(s);
    hide Fold;
    if f == 65535 {
      Residue(s, 0, q + 1);
    } else {
      Residue(s, f, q);
    }
  }

  /** A packet verifies exactly when its words add up to a nonzero multiple of
      65535. */
  lemma VerifiesIff(little: bool, s: seq<int>)
    requires IsBytes(s)
    ensures Checksum(little, s) == 0 <==> WordSum(little, s) > 0 && WordSum(little, s) % 65535 == 0
  {
    WordSumBounds(little, s);
    FullFold(WordSum(little, s));
    hide Fold, WordSum;
  }

  // ---------------------------------------------------------------------
  // A stored checksum verifies

  lemma {:induction false} WordSumUpdate(little: bool, s: seq<int>, k: nat, b: seq<int>)
    requires k % 2 == 0 && k + 1 < |s| && |b| == 2
    ensures WordSum(little, s[..k] + b + s[k + 2..])
            == WordSum(little, s) - Word(little, s[k], s[k + 1]) + Word(little, b[0], b[1])
    decreases k
  {
    var t := s[..k] + b + s[k + 2..];
    if k == 0 {
      assert t[2..] == s[2..];
    } else {
      WordSumUpdate(little, s[2..], k - 2, b);
      assert t[2..] == s[2..][..k - 2] + b + s[2..][k..];
    }
  }

  lemma StoreLoads(little: bool, w: int)
    requires 0 <= w < 65536
    ensures var b := StoredBytes(little, w); IsBytes(b) && Word(little, b[0], b[1]) == w
  {
  }

  /** The packet with `w` stored at `k`. */
  function Stored(little: bool, s: seq<int>, k: nat, w: int): seq<int>
    requires k + 1 < |s|
  {
    s[..k] + StoredBytes(little, w) + s[k + 2..]
  }

  lemma StoredIsBytes(little: bool, s: seq<int>, k: nat, w: int)
    requires IsBytes(s) && k + 1 < |s| && 0 <= w < 65536
    ensures IsBytes(Stored(little, s, k, w))
  {
    StoreLoads(little, w);
    hide StoredBytes;
  }

  /** Storing the checksum of a packet into its zeroed aligned field makes the
      whole packet verify, on a host of any byte order. */
  lemma StoredChecksumVerifies(little: bool, s: seq<int>, k: nat)
    requires IsBytes(s) && k % 2 == 0 && k + 1 < |s| && s[k] == 0 && s[k + 1] == 0
    ensures IsBytes(Stored(little, s, k, Checksum(little, s)))
    ensures Checksum(little, Stored(little, s, k, Checksum(little, s))) == 0
  {
    var c := Checksum(little, s);
    StoreLoads(little, c);
    WordSumUpdate(little, s, k, StoredBytes(little, c));
    StoredIsBytes(little, s, k, c);
    WordSumBounds(little, s);
    var sum := WordSum(little, s);
    var q := FoldQuotient(sum);
    hide Fold, WordSum;
    assert sum + c == 65535 * (q + 1);
    Residue(sum + c, 0, q + 1);
    VerifiesIff(little, Stored(little, s, k, c));
  }

  // ---------------------------------------------------------------------
  // Byte order

  lemma {:induction false} SwappedSums(s: seq<int>) returns (q: int)
    requires IsBytes(s)
    ensures 256 * WordSum(true, s) == WordSum(false, s) + 65535 * q
  {
    q := 0;
    if |s| > 1 {
      var r := SwappedSums(s[2..]);
      q := r + s[1];
    }
  }

  /** RFC 1071, section 2 (B): the bytes stored do not depend on the byte
      order of the host that sums. */
  lemma ByteOrderIndependent(s: seq<int>)
    requires IsBytes(s)
    ensures StoredBytes(true, Checksum(true, s)) == StoredBytes(false, Checksum(false, s))
  {
    WordSumBounds(true, s);
    WordSumBounds(false, s);
    var l, b := WordSum(true, s), WordSum(false, s);
    var ql := FoldQuotient(l);
    var qb := FoldQuotient(b);
    var q := SwappedSums(s);
    SumsVanishTogether(s);
    SwappedFolds(Fold(l), Fold(b), q - 256 * ql + qb);
  }

  /** Residues of swapped sums are swapped. */
  lemma SwappedFolds(fl: int, fb: int, k: int)
    requires 0 <= fl < 65536 && 0 <= fb < 65536 && (fl == 0 <==> fb == 0) && 256 * fl - fb == 65535 * k
    ensures StoredBytes(true, 65535 - fl) == StoredBytes(false, 65535 - fb)
  {
    var x, y := fl % 256, fl / 256;
    assert fl == x + 256 * y && 256 * x + y - fb == 65535 * (k - y);
    SameResidue(256 * x + y, fb, k - y);
    assert 65535 - fl == (255 - x) + 256 * (255 - y);
    assert 65535 - fb == (255 - y) + 256 * (255 - x);
  }

  lemma SameResidue(a: int, b: int, k: int)
    requires a - b == 65535 * k && 0 <= a <= 65535 && 0 <= b <= 65535 && (a == 0 <==> b == 0)
    ensures a == b
  {
  }

  lemma {:induction false} SumsVanishTogether(s: seq<int>)
    requires IsBytes(s)
    ensures WordSum(true, s) == 0 <==> WordSum(false, s) == 0
  {
    if |s| > 1 {
      SumsVanishTogether(s[2..]);
      WordSumBounds(true, s[2..]);
      WordSumBounds(false, s[2..]);
    }
  }

  // ---------------------------------------------------------------------
  // Errors

  /** Of a packet that verifies, changing one aligned word goes unnoticed only
      between 0 and 65535, and only if the rest is not all zero. */
  lemma OneWordErrors(little: bool, s: seq<int>, k: nat, w: int)
    requires IsBytes(s) && k % 2 == 0 && k + 1 < |s| && 0 <= w < 65536 && Checksum(little, s) == 0
    ensures IsBytes(Stored(little, s, k, w))
    ensures var v := Word(little, s[k], s[k + 1]);
            Checksum(little, Stored(little, s, k, w)) == 0
            <==> w == v || (v == 0 && w == 65535) || (v == 65535 && w == 0 && WordSum(little, s) != 65535)
  {
    var v := Word(little, s[k], s[k + 1]);
    var t := Stored(little, s, k, w);
    StoreLoads(little, w);
    WordSumUpdate(little, s, k, StoredBytes(little, w));
    WordSumBounds(little, t);
    VerifiesIff(little, s);
    VerifiesIff(little, t);
    hide WordSum, Checksum;
    MultipleMoves(WordSum(little, s), WordSum(little, t), v, w);
  }

  lemma MultipleMoves(a: int, b: int, v: int, w: int)
    requires a > 0 && a % 65535 == 0 && b == a - v + w && 0 <= v < 65536 && 0 <= w < 65536 && b >= 0
    ensures b > 0 && b % 65535 == 0 <==> w == v || (v == 0 && w == 65535) || (v == 65535 && w == 0 && a != 65535)
  {
    var m := a / 65535;
    assert a == 65535 * m;
    if b % 65535 == 0 {
      var n := b / 65535;
      assert b == 65535 * n && w - v == 65535 * (n - m);
    } else if w == v || w - v == 65535 || v - w == 65535 {
      Residue(b, 0, if w == v then m else if w > v then m + 1 else m - 1);
    }
  }

  // ---------------------------------------------------------------------
  // Sending

  /** send_one: the checksum field is at offset 2 of the header */
  method FillChecksum(pkt: array<int>, little: bool)
    requires IsBytes(pkt[..]) && 8 <= pkt.Length <= NO_OVERFLOW
    modifies pkt
    ensures IsBytes(pkt[..]) && Checksum(little, pkt[..]) == 0
    ensures pkt[..2] == old(pkt[..2]) && pkt[4..] == old(pkt[4..])
    ensures forall other :: StoredBytes(other, Checksum(other, old(pkt[..2]) + [0, 0] + old(pkt[4..]))) == pkt[2..4]
  {
    pkt[2], pkt[3] := 0, 0;
    ghost var s := pkt[..];
    assert s == old(pkt[..2]) + [0, 0] + old(pkt[4..]);
    var c := FtChecksum(pkt, little);
    StoredChecksumVerifies(little, s, 2);
    ByteOrderIndependent(s);
    var b := StoredBytes(little, c);
    pkt[2], pkt[3] := b[0], b[1];
    assert pkt[..] == Stored(little, s, 2, c);
  }

  /** The example of section 3 of RFC 1071: these eight bytes add up to ddf2,
      whose complement is 220d. */
  lemma RfcExample()
    ensures Checksum(false, [0x00, 0x01, 0xf2, 0x03, 0xf4, 0xf5, 0xf6, 0xf7]) == 0x220d
  {
    var s := [0x00, 0x01, 0xf2, 0x03, 0xf4, 0xf5, 0xf6, 0xf7];
    assert s[2..] == [0xf2, 0x03, 0xf4, 0xf5, 0xf6, 0xf7] && s[2..][2..] == [0xf4, 0xf5, 0xf6, 0xf7];
    assert s[2..][2..][2..] == [0xf6, 0xf7] && s[2..][2..][2..][2..] == [];
    assert WordSum(false, s) == 0x2ddf0;
  }
}
