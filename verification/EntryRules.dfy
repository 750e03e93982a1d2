/** Where two entries of a sorted help list stand, rule by rule. */
module EntryRules {
  import opened ArgpOptions
  import opened HolEntries
  import opened LexOrder
  import opened ArgpOrder
  import opened Wrappers

  /** The groups in their order: 0, 1, ..., n, -m, ..., -2, -1. */
  predicate GroupBefore(g1: int, g2: int) {
    0 <= g1 < g2 || g2 < 0 <= g1 || g1 < g2 < 0
  }

  lemma GroupRule(g1: int, g2: int)
    ensures Sign(GroupCmp(g1, g2)) == if GroupBefore(g1, g2) then -1 else if g1 == g2 then 0 else 1
    ensures Lex(GroupKey(g1), GroupKey(g2)) == if GroupBefore(g1, g2) then -1 else if g1 == g2 then 0 else 1
  {
    GroupCmpIsKeyOrder(g1, g2);
  }

  /** The criteria in their order: the groups of the outermost clusters, the
      clusters, the groups inside, the names. */
  lemma EntryStages(f: Forest, s: seq<Byte>, e1: Entry, e2: Entry)
    requires ValidEntry(f, e1) && ValidEntry(f, e2)
    ensures var b1, b2 := BaseGroup(f, e1), BaseGroup(f, e2);
            var clusters := Lex(ClusterKey(f, e1.cluster), ClusterKey(f, e2.cluster));
            EntryOrder(f, s, e1, e2) ==
              if b1 != b2 then (if GroupBefore(b1, b2) then -1 else 1)
              else if clusters != 0 then clusters
              else if e1.group != e2.group then (if GroupBefore(e1.group, e2.group) then -1 else 1)
              else Lex(NameKey(e1, s), NameKey(e2, s))
  {
    hide NameKey, BaseGroup, ClusterKey, GroupKey, Lex;
    var inner1, inner2 := GroupKey(e1.group) + NameKey(e1, s), GroupKey(e2.group) + NameKey(e2, s);
    var k1, k2 := ClusterKey(f, e1.cluster), ClusterKey(f, e2.cluster);
    GroupRule(BaseGroup(f, e1), BaseGroup(f, e2));
    GroupRule(e1.group, e2.group);
    GroupKeyLength(BaseGroup(f, e1), BaseGroup(f, e2));
    GroupKeyLength(e1.group, e2.group);
    LexSameLength(GroupKey(BaseGroup(f, e1)), GroupKey(BaseGroup(f, e2)), k1 + inner1, k2 + inner2);
    ClusterTie(f, e1.cluster, e2.cluster, inner1, inner2);
    LexSameLength(GroupKey(e1.group), GroupKey(e2.group), NameKey(e1, s), NameKey(e2, s));
  }

  lemma GroupKeyLength(g1: int, g2: int)
    ensures |GroupKey(g1)| == |GroupKey(g2)|
  {
  }

  // ---------------------------------------------------------------------
  // Groups and clusters

  /** An entry outside clusters, or in one that has no parent, is sorted by
      its own group or that cluster's first. */
  lemma OuterGroupRule(f: Forest, s: seq<Byte>, e1: Entry, e2: Entry)
    requires ValidEntry(f, e1) && ValidEntry(f, e2)
    requires forall e :: e in [e1, e2] && e.cluster != NO_CLUSTER ==> f[e.cluster].parent == NO_CLUSTER
    ensures var g1 := if e1.cluster == NO_CLUSTER then e1.group else f[e1.cluster].group;
            var g2 := if e2.cluster == NO_CLUSTER then e2.group else f[e2.cluster].group;
            && (GroupBefore(g1, g2) ==> EntryOrder(f, s, e1, e2) == -1)
            && (g1 == g2 && e1.cluster == NO_CLUSTER != e2.cluster ==> EntryOrder(f, s, e1, e2) == -1)
  {
    assert e1 in [e1, e2] && e2 in [e1, e2];
    EntryStages(f, s, e1, e2);
    if e1.cluster == NO_CLUSTER != e2.cluster {
      ClusterAfterNone(f, e1.cluster, e2.cluster);
    }
  }

  /** A cluster inside another one follows the entries of the outer one. */
  lemma InnerClusterRule(f: Forest, s: seq<Byte>, e1: Entry, e2: Entry)
    requires ValidEntry(f, e1) && ValidEntry(f, e2)
    requires e1.cluster != NO_CLUSTER && e2.cluster != NO_CLUSTER && f[e2.cluster].parent == e1.cluster
    ensures EntryOrder(f, s, e1, e2) == -1
  {
    EntryStages(f, s, e1, e2);
    assert BaseGroup(f, e1) == BaseGroup(f, e2);
    hide NameKey, EntryOrder, Lex, BaseGroup;
    ExtraStepDecides(PathKey(f, e1.cluster), StepKey(f[e2.cluster]), PathKey(f, e1.cluster));
    LexZero(PathKey(f, e1.cluster), PathKey(f, e1.cluster));
  }

  /** Clusters below one parent: by group, and the later child first. */
  lemma SiblingClusterRule(f: Forest, s: seq<Byte>, e1: Entry, e2: Entry)
    requires ValidEntry(f, e1) && ValidEntry(f, e2)
    requires e1.cluster != NO_CLUSTER && e2.cluster != NO_CLUSTER && f[e1.cluster].parent == f[e2.cluster].parent
    ensures var c1, c2 := f[e1.cluster], f[e2.cluster];
            && (GroupBefore(c1.group, c2.group) ==> EntryOrder(f, s, e1, e2) == -1)
            && (c1.group == c2.group && c1.index > c2.index ==> EntryOrder(f, s, e1, e2) == -1)
  {
    hide NameKey, EntryOrder, Lex, PathKey;
    var c1, c2 := e1.cluster, e2.cluster;
    EntryStages(f, s, e1, e2);
    assert DepthFits(f, c1) && DepthFits(f, c2);
    CousinCmpIsPathOrder(f, c1, c2);
    LexSameLength(PathKey(f, c1), PathKey(f, c2), [0], [0]);
    LexZero([0], [0]);
    GroupRule(f[c1].group, f[c2].group);
  }

  /** Within one cluster: by group. */
  lemma InnerGroupRule(f: Forest, s: seq<Byte>, e1: Entry, e2: Entry)
    requires ValidEntry(f, e1) && ValidEntry(f, e2) && e1.cluster == e2.cluster
    ensures GroupBefore(e1.group, e2.group) ==> EntryOrder(f, s, e1, e2) == -1
    ensures e1.group == e2.group ==> EntryOrder(f, s, e1, e2) == Lex(NameKey(e1, s), NameKey(e2, s))
  {
    hide NameKey, EntryOrder;
    EntryStages(f, s, e1, e2);
    LexZero(ClusterKey(f, e1.cluster), ClusterKey(f, e2.cluster));
  }

  // ---------------------------------------------------------------------
  // Names

  /** A documentation entry whose long name does not look like an option. */
  ghost predicate NonOption(e: Entry)
    requires e.opts != []
  {
    e.opts[0].docOnly && FirstLong(e.opts).Some? && !DashFirst(FirstLong(e.opts).value)
  }

  /** The name starts with a '-', blanks aside. */
  predicate DashFirst(name: CStr) {
    exists i :: 0 <= i < |name| && name[i] == '-' as int
                && forall j :: 0 <= j < i ==> name[j] == 32 || 9 <= name[j] <= 13
  }

  lemma {:induction false} DashFirstIff(name: CStr)
    ensures LooksNonOption(name) <==> !DashFirst(name)
    decreases |name|
  {
    if name != [] && IsSpace(name[0]) {
      DashFirstIff(name[1..]);
      if i :| 0 <= i < |name| && name[i] == '-' as int
              && forall j :: 0 <= j < i ==> name[j] == 32 || 9 <= name[j] <= 13 {
        assert name[1..][i - 1] == '-' as int && forall j :: 0 <= j < i - 1 ==> name[1..][j] == name[j + 1];
      }
      if i :| 0 <= i < |name[1..]| && name[1..][i] == '-' as int
              && forall j :: 0 <= j < i ==> name[1..][j] == 32 || 9 <= name[1..][j] <= 13 {
        assert name[i + 1] == '-' as int;
        assert forall j :: 0 < j < i + 1 ==> name[j] == name[1..][j - 1];
      }
    } else if name != [] && name[0] == '-' as int {
      assert DashFirst(name);
    }
  }

  predicate LetterOrDigit(c: int) {
    48 <= c <= 57 || 65 <= c <= 90 || 97 <= c <= 122
  }

  /** The part of a name from its first letter or digit on. */
  ghost predicate TailOf(tail: CStr, name: CStr) {
    exists n :: TailAt(tail, name, n)
  }

  ghost predicate TailAt(tail: CStr, name: CStr, n: int) {
    && 0 <= n <= |name| && tail == name[n..] && (n < |name| ==> LetterOrDigit(name[n]))
    && forall i :: 0 <= i < n ==> !LetterOrDigit(name[i])
  }

  /** Documentation entries are sorted by that part of their names. */
  lemma {:induction false} CanonTailIs(name: CStr)
    ensures TailOf(CanonTail(name), name)
    decreases |name|
  {
    if name == [] || IsAlnum(name[0]) {
      assert TailAt(CanonTail(name), name, 0);
    } else {
      CanonTailIs(name[1..]);
      TailUnfold(name);
      var tail := CanonTail(name);
      var n :| TailAt(tail, name[1..], n);
      assert forall i :: 0 < i < n + 1 ==> name[i] == name[1..][i - 1];
      assert TailAt(tail, name, n + 1);
    }
  }

  lemma TailIsUnique(t1: CStr, t2: CStr, name: CStr)
    requires TailOf(t1, name) && TailOf(t2, name)
    ensures t1 == t2
  {
    var n1 :| TailAt(t1, name, n1);
    var n2 :| TailAt(t2, name, n2);
    assert n1 == n2;
  }

  lemma TailUnfold(name: CStr)
    requires name != [] && !IsAlnum(name[0])
    ensures CanonTail(name) == CanonTail(name[1..])
  {
    if !IsSpace(name[0]) {
      SkipsOn(name[1..]);
    }
  }

  lemma {:induction false} SkipsOn(name: CStr)
    ensures SkipToAlnum(SkipSpace(name)) == SkipToAlnum(name)
  {
    if name != [] && IsSpace(name[0]) {
      SkipsOn(name[1..]);
    }
  }

  /** Non-options follow options. */
  lemma NonOptionRule(e1: Entry, e2: Entry, s: seq<Byte>)
    requires e1.opts != [] && e2.opts != [] && !NonOption(e1) && NonOption(e2)
    ensures Lex(NameKey(e1, s), NameKey(e2, s)) == -1
  {
    NonOptionIff(e1);
    NonOptionIff(e2);
    NameKeyOrder(e1, e2, s);
  }

  lemma NonOptionIff(e: Entry)
    requires e.opts != []
    ensures NonOption(e) <==> IsDoc(e)
  {
    if FirstLong(e.opts).Some? {
      DashFirstIff(FirstLong(e.opts).value);
    }
  }

  /** The long name an entry is sorted by: of a documentation entry the part
      from the first letter or digit on. */
  ghost predicate SortsBy(e: Entry, name: CStr)
    requires e.opts != []
  {
    && FirstLong(e.opts).Some?
    && if e.opts[0].docOnly then TailOf(name, FirstLong(e.opts).value) else name == FirstLong(e.opts).value
  }

  /** The character an entry is sorted by: its short option, or else the first
      one of its long name. */
  ghost predicate Leads(e: Entry, s: seq<Byte>, c: int)
    requires e.opts != []
  {
    if FirstShort(e, s) != 0 then c == FirstShort(e, s)
    else exists name :: SortsBy(e, name) && name != [] && name[0] == c
  }

  lemma SortsByName(e: Entry, name: CStr)
    requires e.opts != [] && SortsBy(e, name)
    ensures SortName(e) == Some(name)
  {
    if e.opts[0].docOnly {
      var long := FirstLong(e.opts).value;
      CanonTailIs(long);
      TailIsUnique(name, CanonTail(long), long);
    }
  }

  lemma LeadsFirst(e: Entry, s: seq<Byte>, c: int)
    requires e.opts != [] && Leads(e, s, c)
    ensures FirstChar(e, s) == c
  {
    if FirstShort(e, s) == 0 {
      var name :| SortsBy(e, name) && name != [] && name[0] == c;
      SortsByName(e, name);
    }
  }

  /** By first character, case aside, and of one letter the lower case first;
      with the same one, an entry without a short option first. */
  lemma FirstCharacterRule(e1: Entry, e2: Entry, s: seq<Byte>, c1: int, c2: int)
    requires e1.opts != [] && e2.opts != [] && NonOption(e1) == NonOption(e2) && Leads(e1, s, c1) && Leads(e2, s, c2)
    ensures Lower(c1) < Lower(c2) ==> Lex(NameKey(e1, s), NameKey(e2, s)) == -1
    ensures 'A' as int <= c2 <= 'Z' as int && c1 == c2 + 32 ==> Lex(NameKey(e1, s), NameKey(e2, s)) == -1
    ensures c1 == c2 && FirstShort(e1, s) == 0 != FirstShort(e2, s) ==> Lex(NameKey(e1, s), NameKey(e2, s)) == -1
  {
    hide FirstShort, FirstLong, Leads;
    NonOptionIff(e1);
    NonOptionIff(e2);
    LeadsFirst(e1, s, c1);
    LeadsFirst(e2, s, c2);
    NameKeyOrder(e1, e2, s);
  }

  /** An entry that shows neither a short option nor a long name comes first. */
  lemma NothingFirstRule(e1: Entry, e2: Entry, s: seq<Byte>, c2: int)
    requires e1.opts != [] && e2.opts != [] && FirstShort(e1, s) == 0 && FirstLong(e1.opts).None?
    requires Leads(e2, s, c2) && c2 > 0
    ensures Lex(NameKey(e1, s), NameKey(e2, s)) == -1
  {
    hide FirstShort, FirstLong, Leads;
    LeadsFirst(e2, s, c2);
    NameKeyOrder(e1, e2, s);
  }

  /** Entries with the same short option are not told apart by long names. */
  lemma SameLetterTies(e1: Entry, e2: Entry, s: seq<Byte>)
    requires e1.opts != [] && e2.opts != [] && NonOption(e1) == NonOption(e2)
    requires FirstShort(e1, s) == FirstShort(e2, s) != 0
    ensures Lex(NameKey(e1, s), NameKey(e2, s)) == 0
  {
    hide FirstLong, FirstShort;
    NonOptionIff(e1);
    NonOptionIff(e2);
    NameKeyOrder(e1, e2, s);
  }

  /** Entries with long names only that start with the same character: by the
      names, case aside. */
  lemma LongNameRule(e1: Entry, e2: Entry, s: seq<Byte>, n1: CStr, n2: CStr)
    requires e1.opts != [] && e2.opts != [] && NonOption(e1) == NonOption(e2)
    requires FirstShort(e1, s) == 0 && FirstShort(e2, s) == 0 && SortsBy(e1, n1) && SortsBy(e2, n2)
    requires n1 != [] && n2 != [] && n1[0] == n2[0]
    ensures Lex(NameKey(e1, s), NameKey(e2, s)) == Sign(StrCaseCmp(n1, n2))
  {
    hide FirstShort, FirstLong, Folded, StrCaseCmp;
    NonOptionIff(e1);
    NonOptionIff(e2);
    SortsByName(e1, n1);
    SortsByName(e2, n2);
    NameKeyOrder(e1, e2, s);
    StrCaseCmpIsFoldedOrder(n1, n2);
    LexNext(1, 1, Folded(n1), Folded(n2));
  }
}
