/** The comparator that sorts a help list, proved to compare keys
    lexicographically and so to be a total preorder. */
module ArgpOrder {
  import opened ArgpOptions
  import opened HolEntries
  import opened LexOrder
  import opened Wrappers

  // ---------------------------------------------------------------------
  // Groups: 0, 1, ..., n, -m, ..., -1

  /** A group's rank as a key: the negative groups follow the others. */
  function GroupKey(g: int): seq<int> {
    [if g < 0 then 1 else 0, g]
  }

  /** group_cmp */
  function GroupCmp(group1: int, group2: int): int {
    if (group1 < 0 && group2 < 0) || (group1 >= 0 && group2 >= 0) then group1 - group2
    else group2 - group1
  }

  lemma GroupCmpIsKeyOrder(g1: int, g2: int)
    ensures Sign(GroupCmp(g1, g2)) == Lex(GroupKey(g1), GroupKey(g2))
    ensures GroupCmp(g1, g2) == 0 <==> g1 == g2
  {
    assert GroupKey(g1)[1..] == [g1] && GroupKey(g2)[1..] == [g2];
    assert [g1][1..] == [] && [g2][1..] == [];
    assert Lex([g1], [g2]) == Sign(g1 - g2);
  }

  // ---------------------------------------------------------------------
  // Clusters

  /** The path from the root to a cluster: for each cluster on it a marker,
      its group's rank and its index, the later children first. */
  ghost function PathKey(f: Forest, c: int): (k: seq<int>)
    requires ValidForest(f) && InForest(f, c)
    ensures |k| == if c == NO_CLUSTER then 0 else 4 * f[c].depth + 4
  {
    if c == NO_CLUSTER then []
    else assert DepthFits(f, c); PathKey(f, f[c].parent) + StepKey(f[c])
  }

  function StepKey(c: Cluster): seq<int> {
    [1] + GroupKey(c.group) + [-c.index]
  }

  /** A path closed by an end mark, which sorts before any further step. */
  ghost function ClusterKey(f: Forest, c: int): seq<int>
    requires ValidForest(f) && InForest(f, c)
  {
    PathKey(f, c) + [0]
  }

  /** hol_sibling_cluster_cmp */
  function SiblingCmp(cl1: Cluster, cl2: Cluster): int {
    var cmp := GroupCmp(cl1.group, cl2.group);
    if cmp != 0 then cmp else cl2.index - cl1.index
  }

  /** hol_cousin_cluster_cmp, for clusters at the same depth. */
  function CousinCmp(f: Forest, cl1: int, cl2: int): int
    requires ValidForest(f) && 0 <= cl1 < |f| && 0 <= cl2 < |f| && f[cl1].depth == f[cl2].depth
    decreases cl1
  {
    assert DepthFits(f, cl1) && DepthFits(f, cl2);
    if f[cl1].parent == f[cl2].parent then SiblingCmp(f[cl1], f[cl2])
    else
      var cmp := CousinCmp(f, f[cl1].parent, f[cl2].parent);
      if cmp != 0 then cmp
      else
        var groups := GroupCmp(f[cl1].group, f[cl2].group);
        if groups != 0 then groups else f[cl2].index - f[cl1].index
  }

  lemma SiblingCmpIsStepOrder(cl1: Cluster, cl2: Cluster)
    ensures Sign(SiblingCmp(cl1, cl2)) == Lex(StepKey(cl1), StepKey(cl2))
  {
    var g1, g2 := GroupKey(cl1.group), GroupKey(cl2.group);
    GroupCmpIsKeyOrder(cl1.group, cl2.group);
    LexSameLength(g1, g2, [-cl1.index], [-cl2.index]);
    assert [-cl1.index][1..] == [] && [-cl2.index][1..] == [];
    LexSameLength([1], [1], g1 + [-cl1.index], g2 + [-cl2.index]);
    LexZero([1], [1]);
    assert StepKey(cl1) == [1] + (g1 + [-cl1.index]) && StepKey(cl2) == [1] + (g2 + [-cl2.index]);
  }

  lemma {:induction false} CousinCmpIsPathOrder(f: Forest, cl1: int, cl2: int)
    requires ValidForest(f) && 0 <= cl1 < |f| && 0 <= cl2 < |f| && f[cl1].depth == f[cl2].depth
    ensures Sign(CousinCmp(f, cl1, cl2)) == Lex(PathKey(f, cl1), PathKey(f, cl2))
    decreases cl1
  {
    var p1, p2 := f[cl1].parent, f[cl2].parent;
    assert DepthFits(f, cl1) && DepthFits(f, cl2);
    SiblingCmpIsStepOrder(f[cl1], f[cl2]);
    LexSameLength(PathKey(f, p1), PathKey(f, p2), StepKey(f[cl1]), StepKey(f[cl2]));
    if p1 == p2 {
      LexZero(PathKey(f, p1), PathKey(f, p2));
    } else {
      CousinCmpIsPathOrder(f, p1, p2);
    }
  }

  /** hol_cluster_base */
  method HolClusterBase(f: Forest, c: int) returns (base: int)
    requires ValidForest(f) && 0 <= c < |f|
    ensures base == Base(f, c)
  {
    base := c;
    while f[base].parent != NO_CLUSTER
      invariant 0 <= base < |f| && Base(f, c) == Base(f, base)
      decreases base
    {
      base := f[base].parent;
    }
  }

  /** The outermost cluster around a cluster. */
  function Base(f: Forest, c: int): (b: int)
    requires ValidForest(f) && 0 <= c < |f|
    ensures 0 <= b < |f| && f[b].parent == NO_CLUSTER
    decreases c
  {
    if f[c].parent == NO_CLUSTER then c else Base(f, f[c].parent)
  }

  /** The climb of hol_cluster_cmp: the ancestor of `deep` at the depth of
      `other`, and what its path lacks. */
  method ClimbTo(f: Forest, deep: int, other: int) returns (cl: int, ghost below: seq<int>)
    requires ValidForest(f) && 0 <= deep < |f| && 0 <= other < |f| && f[deep].depth > f[other].depth
    ensures 0 <= cl < |f| && f[cl].depth == f[other].depth
    ensures PathKey(f, deep) == PathKey(f, cl) + below && below != [] && below[0] == 1
  {
    assert DepthFits(f, deep);
    cl := f[deep].parent;
    below := StepKey(f[deep]);
    while f[cl].depth > f[other].depth
      invariant 0 <= cl < |f| && f[cl].depth >= f[other].depth
      invariant PathKey(f, deep) == PathKey(f, cl) + below && below != [] && below[0] == 1
      decreases cl
    {
      assert DepthFits(f, cl);
      below := StepKey(f[cl]) + below;
      cl := f[cl].parent;
    }
  }

  lemma ExtraStepDecides(path: seq<int>, below: seq<int>, other: seq<int>)
    requires |path| == |other| && below != [] && below[0] == 1
    ensures Lex(path + below + [0], other + [0]) == if Lex(path, other) != 0 then Lex(path, other) else 1
    ensures Lex(other + [0], path + below + [0]) == if Lex(other, path) != 0 then Lex(other, path) else -1
  {
    LexSameLength(path, other, below + [0], [0]);
    LexSameLength(other, path, [0], below + [0]);
    assert path + below + [0] == path + (below + [0]);
    assert Lex(below + [0], [0]) == 1 && Lex([0], below + [0]) == -1;
  }

  /** hol_cluster_cmp: the order of root-to-cluster paths, a path before its
      extensions. */
  method HolClusterCmp(f: Forest, c1: int, c2: int) returns (cmp: int)
    requires ValidForest(f) && 0 <= c1 < |f| && 0 <= c2 < |f|
    ensures Sign(cmp) == Lex(ClusterKey(f, c1), ClusterKey(f, c2))
  {
    var cl1, cl2 := c1, c2;
    ghost var below;
    if f[cl1].depth > f[cl2].depth {
      cl1, below := ClimbTo(f, c1, c2);
      ExtraStepDecides(PathKey(f, cl1), below, PathKey(f, cl2));
      CousinCmpIsPathOrder(f, cl1, cl2);
      cmp := CousinCmp(f, cl1, cl2);
      if cmp != 0 {
        return cmp;
      }
      return 1;
    } else if f[cl1].depth < f[cl2].depth {
      cl2, below := ClimbTo(f, c2, c1);
      ExtraStepDecides(PathKey(f, cl2), below, PathKey(f, cl1));
      CousinCmpIsPathOrder(f, cl1, cl2);
      cmp := CousinCmp(f, cl1, cl2);
      if cmp != 0 {
        return cmp;
      }
      return -1;
    } else {
      LexSameLength(PathKey(f, cl1), PathKey(f, cl2), [0], [0]);
      LexZero([0], [0]);
      CousinCmpIsPathOrder(f, cl1, cl2);
      cmp := CousinCmp(f, cl1, cl2);
    }
  }

  lemma {:induction false} PathKeyMarks(f: Forest, c: int, i: nat)
    requires ValidForest(f) && InForest(f, c)
    requires 4 * i < |PathKey(f, c)|
    ensures PathKey(f, c)[4 * i] == 1
    decreases c
  {
    var p := f[c].parent;
    if 4 * i < |PathKey(f, p)| {
      PathKeyMarks(f, p, i);
    }
  }

  /** The end mark keeps any cluster's key from starting another's. */
  lemma ClusterKeyPrefixFree(f: Forest, c1: int, c2: int)
    requires ValidForest(f) && InForest(f, c1) && InForest(f, c2)
    requires ClusterKey(f, c1) <= ClusterKey(f, c2)
    ensures ClusterKey(f, c1) == ClusterKey(f, c2)
  {
    hide PathKey, ValidForest, InForest;
    var p1, p2 := PathKey(f, c1), PathKey(f, c2);
    var n := |p1|;
    PathKeySteps(f, c1);
    assert p1 + [0] <= p2 + [0] && (p1 + [0])[n] == 0;
    if n < |p2| {
      PathKeyMarks(f, c2, n / 4);
    }
  }

  /** A path has four numbers a step. */
  lemma PathKeySteps(f: Forest, c: int)
    requires ValidForest(f) && InForest(f, c)
    ensures |PathKey(f, c)| == 4 * (|PathKey(f, c)| / 4)
  {
    hide PathKey;
  }

  // ---------------------------------------------------------------------
  // Names

  /** tolower in the C locale. */
  function Lower(c: int): int {
    if 'A' as int <= c <= 'Z' as int then c + 32 else c
  }

  predicate IsSpace(c: int) {
    c == 32 || 9 <= c <= 13
  }

  predicate IsAlnum(c: int) {
    '0' as int <= c <= '9' as int || 'A' as int <= c <= 'Z' as int || 'a' as int <= c <= 'z' as int
  }

  /** The name folded for comparison and closed by its NUL. */
  function Folded(s: CStr): seq<int> {
    if s == [] || s[0] == 0 then [0] else [Lower(s[0])] + Folded(s[1..])
  }

  /** strcasecmp */
  function StrCaseCmp(a: CStr, b: CStr): int {
    var c1 := if a == [] then 0 else Lower(a[0]);
    var c2 := if b == [] then 0 else Lower(b[0]);
    if c1 == 0 || c1 != c2 then c1 - c2 else StrCaseCmp(a[1..], b[1..])
  }

  lemma {:induction false} StrCaseCmpIsFoldedOrder(a: CStr, b: CStr)
    ensures Sign(StrCaseCmp(a, b)) == Lex(Folded(a), Folded(b))
  {
    if a != [] && b != [] && a[0] != 0 && b[0] != 0 {
      StrCaseCmpIsFoldedOrder(a[1..], b[1..]);
      assert Folded(a)[1..] == Folded(a[1..]) && Folded(b)[1..] == Folded(b[1..]);
    }
  }

  /** Where canon_doc_option leaves the name pointer. */
  function CanonTail(s: CStr): CStr {
    SkipToAlnum(SkipSpace(s))
  }

  function SkipSpace(s: CStr): CStr {
    if s != [] && IsSpace(s[0]) then SkipSpace(s[1..]) else s
  }

  function SkipToAlnum(s: CStr): CStr {
    if s != [] && !IsAlnum(s[0]) then SkipToAlnum(s[1..]) else s
  }

  /** What canon_doc_option returns: no leading '-' after the blanks. */
  predicate LooksNonOption(s: CStr) {
    SkipSpace(s) == [] || SkipSpace(s)[0] != '-' as int
  }

  /** canon_doc_option */
  method CanonDocOption(name: CStr) returns (nonOpt: bool, tail: CStr)
    ensures nonOpt == LooksNonOption(name) && tail == CanonTail(name)
  {
    tail := name;
    while tail != [] && IsSpace(tail[0])
      invariant SkipSpace(name) == SkipSpace(tail)
      decreases |tail|
    {
      tail := tail[1..];
    }
    nonOpt := tail == [] || tail[0] != '-' as int;
    while tail != [] && !IsAlnum(tail[0])
      invariant CanonTail(name) == SkipToAlnum(tail)
      decreases |tail|
    {
      tail := tail[1..];
    }
  }

  // ---------------------------------------------------------------------
  // Entries

  ghost predicate ValidEntry(f: Forest, e: Entry) {
    ValidForest(f) && InForest(f, e.cluster) && e.opts != []
  }

  ghost predicate IsDoc(e: Entry)
    requires e.opts != []
  {
    var long := FirstLong(e.opts);
    e.opts[0].docOnly && long.Some? && LooksNonOption(long.value)
  }

  /** The long name an entry is sorted by. */
  ghost function SortName(e: Entry): Option<CStr>
    requires e.opts != []
  {
    var long := FirstLong(e.opts);
    if e.opts[0].docOnly && long.Some? then Some(CanonTail(long.value)) else long
  }

  ghost function FirstChar(e: Entry, s: seq<Byte>): int
    requires e.opts != []
  {
    if FirstShort(e, s) != 0 then FirstShort(e, s)
    else if SortName(e).Some? && SortName(e).value != [] then SortName(e).value[0]
    else 0
  }

  /** Non-options last; then by first character, ignoring case and the lower
      case first; then entries without a short option, by long name. */
  ghost function NameKey(e: Entry, s: seq<Byte>): seq<int>
    requires e.opts != []
  {
    var first := FirstChar(e, s);
    [if IsDoc(e) then 1 else 0, Lower(first), -first, if FirstShort(e, s) != 0 then 1 else 0] + LongKey(e, s)
  }

  ghost function LongKey(e: Entry, s: seq<Byte>): seq<int>
    requires e.opts != []
  {
    if FirstShort(e, s) != 0 then []
    else if SortName(e).Some? then [1] + Folded(SortName(e).value)
    else [0]
  }

  /** What an entry is sorted by. */
  ghost function EntryKey(f: Forest, s: seq<Byte>, e: Entry): seq<int>
    requires ValidEntry(f, e)
  {
    GroupKey(BaseGroup(f, e)) + (ClusterKey(f, e.cluster) + (GroupKey(e.group) + NameKey(e, s)))
  }

  ghost function BaseGroup(f: Forest, e: Entry): int
    requires ValidEntry(f, e)
  {
    if e.cluster == NO_CLUSTER then e.group else f[Base(f, e.cluster)].group
  }

  /** hol_entry_cmp: the base groups, the clusters and the inner groups. */
  method HolEntryCmp(f: Forest, s: seq<Byte>, e1: Entry, e2: Entry) returns (cmp: int)
    requires ValidEntry(f, e1) && ValidEntry(f, e2)
    ensures Sign(cmp) == Lex(EntryKey(f, s, e1), EntryKey(f, s, e2))
  {
    var group1, group2 := e1.group, e2.group;
    if e1.cluster != NO_CLUSTER {
      var base := HolClusterBase(f, e1.cluster);
      group1 := f[base].group;
    }
    if e2.cluster != NO_CLUSTER {
      var base := HolClusterBase(f, e2.cluster);
      group2 := f[base].group;
    }
    ghost var inner1 := GroupKey(e1.group) + NameKey(e1, s);
    ghost var inner2 := GroupKey(e2.group) + NameKey(e2, s);
    ghost var k1, k2 := ClusterKey(f, e1.cluster), ClusterKey(f, e2.cluster);
    GroupCmpIsKeyOrder(group1, group2);
    LexSameLength(GroupKey(group1), GroupKey(group2), k1 + inner1, k2 + inner2);
    cmp := GroupCmp(group1, group2);
    if cmp != 0 {
      return cmp;
    }

    ClusterTie(f, e1.cluster, e2.cluster, inner1, inner2);
    cmp := (if e1.cluster != NO_CLUSTER then 1 else 0) - (if e2.cluster != NO_CLUSTER then 1 else 0);
    if cmp != 0 {
      ClusterAfterNone(f, e1.cluster, e2.cluster);
      return cmp;
    }
    if e1.cluster != NO_CLUSTER {
      cmp := HolClusterCmp(f, e1.cluster, e2.cluster);
      if cmp != 0 {
        return cmp;
      }
    }
    LexZero(k1, k2);

    GroupCmpIsKeyOrder(e1.group, e2.group);
    LexSameLength(GroupKey(e1.group), GroupKey(e2.group), NameKey(e1, s), NameKey(e2, s));
    cmp := GroupCmp(e1.group, e2.group);
    if cmp != 0 {
      return cmp;
    }
    cmp := HolEntryNameCmp(s, e1, e2);
  }

  lemma ClusterTie(f: Forest, c1: int, c2: int, x: seq<int>, y: seq<int>)
    requires ValidForest(f) && InForest(f, c1) && InForest(f, c2)
    ensures var k1, k2 := ClusterKey(f, c1), ClusterKey(f, c2);
            Lex(k1 + x, k2 + y) == if Lex(k1, k2) != 0 then Lex(k1, k2) else Lex(x, y)
  {
    var k1, k2 := ClusterKey(f, c1), ClusterKey(f, c2);
    LexZero(k1, k2);
    if k1 == k2 {
      LexSameLength(k1, k2, x, y);
    } else {
      if k1 <= k2 { ClusterKeyPrefixFree(f, c1, c2); }
      if k2 <= k1 { ClusterKeyPrefixFree(f, c2, c1); }
      LexDiverging(k1, k2, x, y);
    }
  }

  lemma ClusterAfterNone(f: Forest, c1: int, c2: int)
    requires ValidForest(f) && InForest(f, c1) && InForest(f, c2)
    requires (c1 == NO_CLUSTER) != (c2 == NO_CLUSTER)
    ensures Lex(ClusterKey(f, c1), ClusterKey(f, c2)) == if c1 == NO_CLUSTER then -1 else 1
  {
    if c1 != NO_CLUSTER {
      PathKeyMarks(f, c1, 0);
    } else {
      PathKeyMarks(f, c2, 0);
    }
  }

  /** hol_entry_cmp: the comparison of names within one group and cluster. */
  method HolEntryNameCmp(s: seq<Byte>, e1: Entry, e2: Entry) returns (cmp: int)
    requires e1.opts != [] && e2.opts != []
    ensures Sign(cmp) == Lex(NameKey(e1, s), NameKey(e2, s))
  {
    hide Folded, StrCaseCmp, FirstLong, FirstShort, CanonTail, SkipSpace;
    var long1 := HolEntryFirstLong(e1);
    var long2 := HolEntryFirstLong(e2);
    var doc1, doc2 := 0, 0;
    if e1.opts[0].docOnly && long1.Some? {
      var nonOpt, tail := CanonDocOption(long1.value);
      doc1, long1 := if nonOpt then 1 else 0, Some(tail);
    }
    if e2.opts[0].docOnly && long2.Some? {
      var nonOpt, tail := CanonDocOption(long2.value);
      doc2, long2 := if nonOpt then 1 else 0, Some(tail);
    }
    var short1 := HolEntryFirstShort(e1, s);
    var short2 := HolEntryFirstShort(e2, s);
    var first1 := if short1 != 0 then short1 else if long1.Some? then CharAt(long1.value, 0) else 0;
    var first2 := if short2 != 0 then short2 else if long2.Some? then CharAt(long2.value, 0) else 0;
    NameKeyOrder(e1, e2, s);

    cmp := doc1 - doc2;
    if cmp != 0 {
      return cmp;
    }
    cmp := Lower(first1) - Lower(first2);
    if cmp != 0 {
      return cmp;
    }
    cmp := first2 - first1;
    if cmp != 0 {
      return cmp;
    }
    cmp := (if short1 != 0 then 1 else 0) - (if short2 != 0 then 1 else 0);
    if cmp != 0 {
      return cmp;
    }
    if short1 == 0 {
      cmp := (if long1.Some? then 1 else 0) - (if long2.Some? then 1 else 0);
      if cmp != 0 {
        return cmp;
      }
      if long1.Some? {
        LexSameLength([1], [1], Folded(long1.value), Folded(long2.value));
        LexZero([1], [1]);
        StrCaseCmpIsFoldedOrder(long1.value, long2.value);
        cmp := StrCaseCmp(long1.value, long2.value);
        if cmp != 0 {
          return cmp;
        }
      }
    }
    return 0;
  }

  /** The first component in which two name keys differ decides. */
  lemma NameKeyOrder(e1: Entry, e2: Entry, s: seq<Byte>)
    requires e1.opts != [] && e2.opts != []
    ensures var k1, k2 := NameKey(e1, s), NameKey(e2, s);
            Lex(k1, k2) == if k1[0] != k2[0] then Sign(k1[0] - k2[0])
                           else if k1[1] != k2[1] then Sign(k1[1] - k2[1])
                           else if k1[2] != k2[2] then Sign(k1[2] - k2[2])
                           else if k1[3] != k2[3] then Sign(k1[3] - k2[3])
                           else Lex(LongKey(e1, s), LongKey(e2, s))
  {
    var k1, k2 := NameKey(e1, s), NameKey(e2, s);
    var t1, t2 := LongKey(e1, s), LongKey(e2, s);
    KeyParts(e1, s);
    KeyParts(e2, s);
    hide NameKey, LongKey, Lex, Sign;
    LexNext(k1[0], k2[0], [k1[1], k1[2], k1[3]] + t1, [k2[1], k2[2], k2[3]] + t2);
    LexNext(k1[1], k2[1], [k1[2], k1[3]] + t1, [k2[2], k2[3]] + t2);
    LexNext(k1[2], k2[2], [k1[3]] + t1, [k2[3]] + t2);
    LexNext(k1[3], k2[3], t1, t2);
  }

  lemma KeyParts(e: Entry, s: seq<Byte>)
    requires e.opts != []
    ensures var k, t := NameKey(e, s), LongKey(e, s);
            && |k| >= 4 && k == [k[0]] + ([k[1], k[2], k[3]] + t)
            && [k[1], k[2], k[3]] + t == [k[1]] + ([k[2], k[3]] + t) && [k[2], k[3]] + t == [k[2]] + ([k[3]] + t)
  {
    hide LongKey, FirstChar, IsDoc, Lower, FirstShort;
  }

  /** What hol_entry_cmp returns, up to its magnitude. */
  ghost function EntryOrder(f: Forest, s: seq<Byte>, e1: Entry, e2: Entry): int
    requires ValidEntry(f, e1) && ValidEntry(f, e2)
  {
    Lex(EntryKey(f, s, e1), EntryKey(f, s, e2))
  }

  /** The four promises of the comparator's comment, and antisymmetry. */
  lemma EntryOrderIsTotalPreorder(f: Forest, s: seq<Byte>, e1: Entry, e2: Entry, e3: Entry)
    requires ValidEntry(f, e1) && ValidEntry(f, e2) && ValidEntry(f, e3)
    ensures EntryOrder(f, s, e1, e2) == -EntryOrder(f, s, e2, e1)
    ensures EntryOrder(f, s, e1, e2) < 0 && EntryOrder(f, s, e2, e3) < 0 ==> EntryOrder(f, s, e1, e3) < 0
    ensures EntryOrder(f, s, e1, e2) < 0 && EntryOrder(f, s, e2, e3) == 0 ==> EntryOrder(f, s, e1, e3) < 0
    ensures EntryOrder(f, s, e1, e2) == 0 && EntryOrder(f, s, e2, e3) < 0 ==> EntryOrder(f, s, e1, e3) < 0
    ensures EntryOrder(f, s, e1, e2) == 0 && EntryOrder(f, s, e2, e3) == 0 ==> EntryOrder(f, s, e1, e3) == 0
  {
    var k1, k2, k3 := EntryKey(f, s, e1), EntryKey(f, s, e2), EntryKey(f, s, e3);
    LexAntisymmetric(k1, k2);
    if Lex(k1, k2) <= 0 && Lex(k2, k3) <= 0 {
      LexTransitive(k1, k2, k3);
    }
  }
}
