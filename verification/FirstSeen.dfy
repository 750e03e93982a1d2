/** Lists: concatenation, and a list without repeats. */
module FirstSeen {

  lemma Assoc<T>(a: seq<T>, b: seq<T>, c: seq<T>)
    ensures a + (b + c) == (a + b) + c
  {
  }

  lemma Halves<T>(s: seq<T>, n: nat)
    requires n <= |s|
    ensures s == s[..n] + s[n..]
  {
  }

  lemma Regroup<T>(b: seq<T>, x: seq<T>, y: seq<T>, z: seq<T>, r: seq<T>)
    ensures b + x + y + (z + r) == b + (x + y + z) + r
  {
  }

  function Flatten<T>(ss: seq<seq<T>>): seq<T> {
    if ss == [] then [] else ss[0] + Flatten(ss[1..])
  }

  lemma {:induction false} FlattenAppend<T>(a: seq<seq<T>>, b: seq<seq<T>>)
    ensures Flatten(a + b) == Flatten(a) + Flatten(b)
  {
    if a == [] {
      assert a + b == b;
    } else {
      assert Flatten(a + b) == a[0] + Flatten((a + b)[1..]);
      assert Flatten(a) == a[0] + Flatten(a[1..]);
      hide Flatten;
      assert (a + b)[1..] == a[1..] + b;
      FlattenAppend(a[1..], b);
      Assoc(a[0], Flatten(a[1..]), Flatten(b));
    }
  }

  lemma FlattenOne<T>(s: seq<T>)
    ensures Flatten([s]) == s
  {
    assert [s][1..] == [] && s + [] == s;
  }

  lemma FlattenAround<T>(a: seq<seq<T>>, x: seq<T>, b: seq<seq<T>>)
    ensures Flatten(a + [x]) == Flatten(a) + x
    ensures Flatten(a + [x] + b) == Flatten(a) + x + Flatten(b)
  {
    hide Flatten;
    FlattenOne(x);
    FlattenAppend(a, [x]);
    FlattenAppend(a + [x], b);
  }

  lemma FlattenSnoc<T>(ss: seq<seq<T>>, i: nat)
    requires i < |ss|
    ensures Flatten(ss[..i + 1]) == Flatten(ss[..i]) + ss[i]
    ensures Flatten(ss) == Flatten(ss[..i]) + ss[i] + Flatten(ss[i + 1..])
  {
    hide Flatten;
    FlattenAround(ss[..i], ss[i], ss[i + 1..]);
    assert ss[..i + 1] == ss[..i] + [ss[i]];
    assert ss == ss[..i] + [ss[i]] + ss[i + 1..];
  }

  lemma {:induction false} InFlatten<T>(ss: seq<seq<T>>, x: T)
    ensures x in Flatten(ss) <==> exists i :: 0 <= i < |ss| && x in ss[i]
  {
    if ss != [] {
      InFlatten(ss[1..], x);
      assert forall i :: 0 < i < |ss| ==> ss[i] == ss[1..][i - 1];
      if i :| 0 <= i < |ss| && x in ss[i] {
        assert i > 0 ==> x in ss[1..][i - 1];
      }
    }
  }

  /** The first occurrence in the whole lies in the first part that has one. */
  lemma FirstInPart<T>(ss: seq<seq<T>>, p: nat, x: T, index: nat)
    requires p < |ss| && x in ss[p] && forall q :: 0 <= q < p ==> x !in ss[q]
    requires index <= |Flatten(ss)| && (index < |Flatten(ss)| ==> Flatten(ss)[index] == x)
    requires forall j :: 0 <= j < index ==> Flatten(ss)[j] != x
    ensures |Flatten(ss[..p])| <= index < |Flatten(ss[..p + 1])| <= |Flatten(ss)|
  {
    InFlatten(ss[..p], x);
    hide Flatten;
    FlattenSnoc(ss, p);
    var all, before := Flatten(ss), Flatten(ss[..p]);
    forall i | 0 <= i < |before| ensures all[i] != x {
      assert all[i] == before[i] && before[i] in before;
    }
    var j :| 0 <= j < |ss[p]| && ss[p][j] == x;
    assert all[|before| + j] == x;
  }

  /** The part that element `i` of the whole comes from. */
  lemma {:induction false} Locate<T>(ss: seq<seq<T>>, i: nat) returns (p: nat, j: nat)
    requires i < |Flatten(ss)|
    ensures p < |ss| && j < |ss[p]| && Flatten(ss)[i] == ss[p][j]
    ensures Flatten(ss)[..i] == Flatten(ss[..p]) + ss[p][..j]
    decreases |ss|
  {
    if i < |ss[0]| {
      p, j := 0, i;
    } else {
      p, j := Locate(ss[1..], i - |ss[0]|);
      assert ss[..p + 1][1..] == ss[1..][..p];
      assert Flatten(ss)[..i] == ss[0] + Flatten(ss[1..])[..i - |ss[0]|];
      Assoc(ss[0], Flatten(ss[1..][..p]), ss[p + 1][..j]);
      p := p + 1;
    }
  }

  function Dedup<T(==)>(s: seq<T>): seq<T> {
    if s == [] then []
    else
      var d := Dedup(s[..|s| - 1]);
      if s[|s| - 1] in s[..|s| - 1] then d else d + [s[|s| - 1]]
  }

  lemma DedupSnoc<T>(s: seq<T>, x: T)
    ensures Dedup(s + [x]) == if x in s then Dedup(s) else Dedup(s) + [x]
  {
    assert (s + [x])[..|s|] == s;
  }

  lemma {:induction false} DedupShrinks<T>(s: seq<T>)
    ensures |Dedup(s)| <= |s|
  {
    if s != [] {
      DedupShrinks(s[..|s| - 1]);
    }
  }

  lemma {:induction false} DedupMembers<T>(s: seq<T>)
    ensures forall x :: x in Dedup(s) <==> x in s
  {
    if s != [] {
      var t := s[..|s| - 1];
      DedupMembers(t);
      assert s == t + [s[|s| - 1]];
    }
  }

  lemma {:induction false} DedupNoRepeat<T>(s: seq<T>)
    ensures forall i, j :: 0 <= i < j < |Dedup(s)| ==> Dedup(s)[i] != Dedup(s)[j]
  {
    if s != [] {
      var t := s[..|s| - 1];
      DedupNoRepeat(t);
      DedupMembers(t);
    }
  }

  lemma {:induction false} DedupPrefix<T>(s: seq<T>, t: seq<T>)
    ensures Dedup(s) <= Dedup(s + t)
    decreases |t|
  {
    if t == [] {
      assert s + t == s;
    } else {
      var u := t[..|t| - 1];
      DedupPrefix(s, u);
      assert s + t == (s + u) + [t[|t| - 1]];
      DedupSnoc(s + u, t[|t| - 1]);
    }
  }

  /** An element stands at the end of the part already built exactly when it
      was not seen before. */
  lemma NextIsFresh<T>(before: seq<T>, x: T, rest: seq<T>)
    ensures var d := Dedup(before + [x] + rest);
            var n := |Dedup(before)|;
            (n < |d| && d[n] == x) <==> x !in before
  {
    var d, n := Dedup(before + [x] + rest), |Dedup(before)|;
    DedupSnoc(before, x);
    DedupPrefix(before, [x] + rest);
    assert before + [x] + rest == before + ([x] + rest);
    DedupPrefix(before + [x], rest);
    DedupMembers(before);
    DedupNoRepeat(before + [x] + rest);
    if x in before {
      var i :| 0 <= i < n && Dedup(before)[i] == x;
      assert d[i] == x;
    }
  }

  /** Merging a list without repeats, one element at a time: `seen` has been
      merged into `a`, `x` is next. */
  lemma MergeStep<T>(a: seq<T>, seen: seq<T>, x: T, later: seq<T>)
    ensures Dedup(seen + [x]) == if x in seen then Dedup(seen) else Dedup(seen) + [x]
    ensures |Dedup(seen)| <= |Dedup(seen + [x])| <= |Dedup(seen + [x] + later)|
    ensures var d := Dedup(seen + [x] + later);
            (|Dedup(seen)| < |d| && d[|Dedup(seen)|] == x) <==> x !in seen
    ensures Dedup(a + (seen + [x])) == if x in seen || x in Dedup(a) then Dedup(a + seen) else Dedup(a + seen) + [x]
    ensures Dedup(a) <= Dedup(a + seen)
  {
    DedupSnoc(seen, x);
    NextIsFresh(seen, x, later);
    DedupPrefix(seen + [x], later);
    assert a + (seen + [x]) == (a + seen) + [x];
    DedupSnoc(a + seen, x);
    DedupMembers(a);
    DedupPrefix(a, seen);
  }
}
