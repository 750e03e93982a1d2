/** Building the help list of a tree of argps. */
module ArgpHelp {
  import opened ArgpOptions
  import opened HolEntries
  import opened FirstSeen

  // ---------------------------------------------------------------------
  // What the list of a tree must be

  function AliasRun(opts: seq<Opt>): (n: nat)
    ensures n <= |opts|
    ensures forall i :: 0 <= i < n ==> opts[i].alias
    ensures n < |opts| ==> !opts[n].alias
  {
    if opts == [] || !opts[0].alias then 0 else 1 + AliasRun(opts[1..])
  }

  /** The group of the entry that starts with `o`. */
  function EntryGroup(o: Opt, current: int): int {
    if o.group != 0 then o.group
    else if o.name.None? && o.key == 0 then current + 1
    else current
  }

  /** One table cut into entries, their string offsets left open. */
  function Outline(opts: seq<Opt>, current: int, cluster: int, node: nat): seq<Entry>
    decreases |opts|
  {
    if opts == [] then []
    else
      var n := 1 + AliasRun(opts[1..]);
      var group := EntryGroup(opts[0], current);
      [Entry(opts[..n], 0, group, cluster, node)] + Outline(opts[n..], group, cluster, node)
  }

  function NonAliases(opts: seq<Opt>): nat {
    if opts == [] then 0 else (if opts[0].alias then 0 else 1) + NonAliases(opts[1..])
  }

  lemma {:induction false} NonAliasesAppend(a: seq<Opt>, b: seq<Opt>)
    ensures NonAliases(a + b) == NonAliases(a) + NonAliases(b)
  {
    if a == [] {
      assert a + b == b;
    } else {
      NonAliasesAppend(a[1..], b);
      assert (a + b)[1..] == a[1..] + b;
    }
  }

  lemma NonAliasesSnoc(opts: seq<Opt>, i: nat)
    requires i < |opts|
    ensures NonAliases(opts[..i + 1]) == NonAliases(opts[..i]) + if opts[i].alias then 0 else 1
  {
    assert opts[..i + 1] == opts[..i] + [opts[i]];
    NonAliasesAppend(opts[..i], [opts[i]]);
  }

  lemma {:induction false} AllAliases(opts: seq<Opt>)
    requires forall o :: o in opts ==> o.alias
    ensures NonAliases(opts) == 0
  {
    if opts != [] {
      AllAliases(opts[1..]);
    }
  }

  /** Counting the non-aliases, as make_hol does, counts the entries. */
  lemma {:induction false} OutlineSize(opts: seq<Opt>, current: int, cluster: int, node: nat)
    requires opts == [] || !opts[0].alias
    ensures |Outline(opts, current, cluster, node)| == NonAliases(opts)
    decreases |opts|
  {
    if opts != [] {
      var n := 1 + AliasRun(opts[1..]);
      OutlineUnfold(opts, current, cluster, node, n);
      RunCounts(opts, n);
      hide Outline, AliasRun, NonAliases;
      OutlineSize(opts[n..], EntryGroup(opts[0], current), cluster, node);
    }
  }

  /** The first entry of a table. */
  lemma OutlineUnfold(opts: seq<Opt>, current: int, cluster: int, node: nat, n: nat)
    requires opts != [] && n == 1 + AliasRun(opts[1..])
    ensures n <= |opts|
    ensures var group := EntryGroup(opts[0], current);
            Outline(opts, current, cluster, node)
            == [Entry(opts[..n], 0, group, cluster, node)] + Outline(opts[n..], group, cluster, node)
  {
    hide AliasRun, EntryGroup;
  }

  lemma RunCounts(opts: seq<Opt>, n: nat)
    requires opts != [] && !opts[0].alias && n == 1 + AliasRun(opts[1..])
    ensures n <= |opts| && NonAliases(opts) == 1 + NonAliases(opts[n..])
    ensures n < |opts| ==> !opts[n].alias
  {
    var run := opts[..n];
    assert run[1..] == opts[1..n];
    assert forall o :: o in run[1..] ==> o.alias;
    AllAliases(run[1..]);
    assert NonAliases(run) == 1;
    Halves(opts, n);
    NonAliasesAppend(run, opts[n..]);
  }

  /** The options of a list of entries. */
  function OptsOf(es: seq<Entry>): seq<Opt> {
    if es == [] then [] else es[0].opts + OptsOf(es[1..])
  }

  lemma {:induction false} OptsOfAppend(a: seq<Entry>, b: seq<Entry>)
    ensures OptsOf(a + b) == OptsOf(a) + OptsOf(b)
  {
    if a == [] {
      assert a + b == b;
    } else {
      OptsOfAppend(a[1..], b);
      assert (a + b)[0] == a[0] && (a + b)[1..] == a[1..] + b;
      Assoc(a[0].opts, OptsOf(a[1..]), OptsOf(b));
    }
  }

  lemma OptsOfCons(e: Entry, rest: seq<Entry>)
    ensures OptsOf([e] + rest) == e.opts + OptsOf(rest)
  {
    assert ([e] + rest)[1..] == rest;
  }

  lemma {:induction false} OutlineKeepsOpts(opts: seq<Opt>, current: int, cluster: int, node: nat)
    ensures OptsOf(Outline(opts, current, cluster, node)) == opts
    decreases |opts|
  {
    if opts != [] {
      var n := 1 + AliasRun(opts[1..]);
      OutlineUnfold(opts, current, cluster, node, n);
      hide OptsOf, AliasRun, Outline, EntryGroup;
      var group := EntryGroup(opts[0], current);
      OutlineKeepsOpts(opts[n..], group, cluster, node);
      OptsOfCons(Entry(opts[..n], 0, group, cluster, node), Outline(opts[n..], group, cluster, node));
      Halves(opts, n);
    }
  }

  lemma OutlineNone(opts: seq<Opt>, current: int, cluster: int, node: nat)
    ensures Outline(opts, current, cluster, node) == [] <==> opts == []
  {
    hide AliasRun, EntryGroup;
  }

  lemma {:induction false} OutlineEntries(opts: seq<Opt>, current: int, cluster: int, node: nat, i: nat)
    requires i < |Outline(opts, current, cluster, node)|
    ensures var e := Outline(opts, current, cluster, node)[i];
            && e.node == node && e.cluster == cluster && e.opts != []
            && forall j :: 1 <= j < |e.opts| ==> e.opts[j].alias
    decreases i
  {
    hide Outline, AliasRun, EntryGroup;
    OutlineNone(opts, current, cluster, node);
    var n := 1 + AliasRun(opts[1..]);
    OutlineUnfold(opts, current, cluster, node, n);
    if i > 0 {
      OutlineEntries(opts[n..], EntryGroup(opts[0], current), cluster, node, i - 1);
    }
  }

  /** An entry's group: that of its option; without one, a nameless header
      starts the group after the one before, and anything else stays in it.
      `before` is the group before the table. */
  predicate GroupFollows(e: Entry, before: int) {
    && e.opts != []
    && var o := e.opts[0];
       e.group == if o.group != 0 then o.group
                  else if o.name.None? && o.key == 0 then before + 1
                  else before
  }

  lemma {:induction false} OutlineGroups(opts: seq<Opt>, current: int, cluster: int, node: nat, i: nat)
    requires i < |Outline(opts, current, cluster, node)|
    ensures var es := Outline(opts, current, cluster, node);
            GroupFollows(es[i], if i == 0 then current else es[i - 1].group)
    decreases i
  {
    hide Outline, AliasRun;
    OutlineNone(opts, current, cluster, node);
    var n := 1 + AliasRun(opts[1..]);
    OutlineUnfold(opts, current, cluster, node, n);
    if i > 0 {
      OutlineGroups(opts[n..], EntryGroup(opts[0], current), cluster, node, i - 1);
    }
  }

  /** The short keys declared by a list of entries, in order. */
  function KeysOf(es: seq<Entry>): (ks: seq<Byte>)
    ensures 0 !in ks
  {
    ShortKeys(OptsOf(es))
  }

  lemma KeysOfAppend(a: seq<Entry>, b: seq<Entry>)
    ensures KeysOf(a + b) == KeysOf(a) + KeysOf(b)
  {
    OptsOfAppend(a, b);
    ShortKeysAppend(OptsOf(a), OptsOf(b));
  }

  lemma KeysOfSnoc(es: seq<Entry>, i: nat)
    requires i < |es|
    ensures KeysOf(es[..i + 1]) == KeysOf(es[..i]) + ShortKeys(es[i].opts)
    ensures KeysOf(es) == KeysOf(es[..i]) + ShortKeys(es[i].opts) + KeysOf(es[i + 1..])
  {
    assert es[..i + 1] == es[..i] + [es[i]] && es == es[..i + 1] + es[i + 1..];
    KeysOfAppend(es[..i], [es[i]]);
    KeysOfAppend(es[..i + 1], es[i + 1..]);
    OptsOfCons(es[i], []);
    assert [es[i]] + [] == [es[i]] && es[i].opts + [] == es[i].opts;
  }

  lemma KeysSnoc(opts: seq<Opt>, i: nat)
    requires i < |opts|
    ensures ShortKeys(opts[..i + 1]) == ShortKeys(opts[..i]) + ShortKeys([opts[i]])
  {
    assert opts[..i + 1] == opts[..i] + [opts[i]];
    ShortKeysAppend(opts[..i], [opts[i]]);
  }

  lemma KeysOne(o: Opt)
    ensures ShortKeys([o]) == if IsShort(o) then [o.key] else []
  {
  }

  /** Where an entry's own part of the string starts. */
  function Offset(es: seq<Entry>, i: nat): nat
    requires i <= |es|
  {
    |Dedup(KeysOf(es[..i]))|
  }

  /** The entries with their string offsets filled in. */
  function Placed(es: seq<Entry>): seq<Entry> {
    seq(|es|, i requires 0 <= i < |es| => es[i].(so := Offset(es, i)))
  }

  /** For each argp of the tree its cluster, and the clusters allocated. */
  datatype Placing = Placing(clusters: seq<int>, forest: Forest)

  function Place(a: Argp, cluster: int, f: Forest): (p: Placing)
    ensures |p.clusters| == |Nodes(a)| && f <= p.forest
    decreases a, |a.children| + 1
  {
    PlaceUpTo(a, |a.children|, cluster, f)
  }

  function PlaceUpTo(a: Argp, i: nat, cluster: int, f: Forest): (p: Placing)
    requires i <= |a.children|
    ensures |p.clusters| == |NodesUpTo(a, i)| && f <= p.forest
    decreases a, i
  {
    if i == 0 then Placing([cluster], f)
    else
      var before := PlaceUpTo(a, i - 1, cluster, f);
      var child := a.children[i - 1];
      var sub := Place(child.argp, ChildCluster(child, cluster, before.forest),
                       WithChildCluster(child, i - 1, cluster, before.forest));
      Placing(before.clusters + sub.clusters, sub.forest)
  }

  /** The cluster a child's entries go to: a new one, or the parent's. */
  function ChildCluster(child: Child, cluster: int, f: Forest): int {
    if child.group != 0 || child.header then |f| else cluster
  }

  function WithChildCluster(child: Child, index: nat, cluster: int, f: Forest): Forest {
    if child.group != 0 || child.header then f + [NewCluster(f, child.group, index, cluster)] else f
  }

  function NewCluster(f: Forest, group: int, index: nat, parent: int): Cluster {
    Cluster(group, index, parent, if 0 <= parent < |f| then f[parent].depth + 1 else 0)
  }

  /** The outlines of a list of argps, table after table. */
  function Outlines(nodes: seq<Argp>, clusters: seq<int>, base: nat): seq<seq<Entry>>
    requires |nodes| == |clusters|
  {
    seq(|nodes|, i requires 0 <= i < |nodes| => Outline(Table(nodes[i]), 0, clusters[i], base + i))
  }

  function EntriesFor(nodes: seq<Argp>, clusters: seq<int>, base: nat): seq<Entry>
    requires |nodes| == |clusters|
  {
    Flatten(Outlines(nodes, clusters, base))
  }

  lemma EntriesForAppend(n1: seq<Argp>, c1: seq<int>, n2: seq<Argp>, c2: seq<int>, base: nat)
    requires |n1| == |c1| && |n2| == |c2|
    ensures EntriesFor(n1 + n2, c1 + c2, base) == EntriesFor(n1, c1, base) + EntriesFor(n2, c2, base + |n1|)
  {
    assert Outlines(n1 + n2, c1 + c2, base) == Outlines(n1, c1, base) + Outlines(n2, c2, base + |n1|);
    FlattenAppend(Outlines(n1, c1, base), Outlines(n2, c2, base + |n1|));
  }

  ghost predicate NoLeadingAlias(a: Argp) {
    forall n :: n in Nodes(a) ==> Table(n) == [] || !Table(n)[0].alias
  }

  // ---------------------------------------------------------------------
  // Building it

  /** All clusters of a list under construction. */
  class Arena {
    var f: Forest

    constructor ()
      ensures f == []
    {
      f := [];
    }

    /** hol_add_cluster */
    method HolAddCluster(group: int, index: nat, parent: int) returns (cl: int)
      requires ValidForest(f) && InForest(f, parent)
      modifies this
      ensures cl == |old(f)| && f == old(f) + [NewCluster(old(f), group, index, parent)]
      ensures ValidForest(f)
    {
      cl := |f|;
      ghost var f0 := f;
      f := f + [Cluster(group, index, parent, if parent != NO_CLUSTER then f[parent].depth + 1 else 0)];
      forall c | 0 <= c < |f| ensures DepthFits(f, c) {
        if c < |f0| {
          assert DepthFits(f0, c);
        }
      }
    }
  }

  /** struct hol.  With no entries the other fields mean nothing. */
  class Hol {
    var numEntries: nat
    var entries: array<Entry>
    var shorts: array<Byte>
    ghost var outline: seq<Entry>

    /** The entries and the NUL-terminated string are those of the outline. */
    ghost predicate Valid()
      reads this, entries, shorts
    {
      && numEntries == |outline|
      && (numEntries > 0 ==>
            && entries.Length == numEntries
            && entries[..] == Placed(outline)
            && Holds(shorts[..], Dedup(KeysOf(outline))))
    }

    constructor ()
      ensures numEntries == 0 && outline == [] && Valid()
      ensures fresh(entries) && fresh(shorts)
    {
      numEntries := 0;
      entries := new Entry[0];
      shorts := new Byte[0];
      outline := [];
    }
  }

  /** The buffer holds the string and its NUL. */
  ghost predicate Holds(buffer: seq<Byte>, s: seq<Byte>) {
    |s| < |buffer| && buffer[..|s|] == s && buffer[|s|] == 0 && 0 !in s
  }

  /** find_char on buffer[beg..end] */
  method FindChar(ch: Byte, buffer: array<Byte>, beg: nat, end: nat) returns (found: bool)
    requires beg <= end <= buffer.Length
    ensures found <==> ch in buffer[beg..end]
  {
    var i := beg;
    while i < end
      invariant beg <= i <= end
      invariant ch !in buffer[beg..i]
    {
      if buffer[i] == ch {
        assert buffer[beg..end][i - beg] == ch;
        return true;
      }
      i := i + 1;
    }
    return false;
  }

  method StrLen(buffer: array<Byte>, ghost s: seq<Byte>) returns (n: nat)
    requires Holds(buffer[..], s)
    ensures n == |s|
  {
    n := 0;
    while buffer[n] != 0
      invariant n <= |s|
      decreases |s| - n
    {
      assert n < |s|;
      n := n + 1;
    }
  }

  /** The short option of `o`, if any and not yet in the string, is added. */
  method AddShort(o: Opt, buffer: array<Byte>, so: nat, ghost before: seq<Byte>) returns (so': nat)
    requires so < buffer.Length && (IsShort(o) ==> so + 1 < buffer.Length)
    requires buffer[..so] == Dedup(before)
    modifies buffer
    ensures so' < buffer.Length
    ensures buffer[..so'] == Dedup(before + ShortKeys([o]))
  {
    so' := so;
    KeysOne(o);
    assert before + [] == before;
    if IsShort(o) {
      DedupSnoc(before, o.key);
      DedupMembers(before);
      var found := FindChar(o.key, buffer, 0, so);
      if !found {
        buffer[so] := o.key;
        so' := so + 1;
      }
    }
  }

  /** The first pass of make_hol: how many entries and short options. */
  method CountSpace(opts: seq<Opt>) returns (num: nat, numShort: nat)
    ensures num == NonAliases(opts) && numShort == |ShortKeys(opts)|
  {
    num, numShort := 0, 0;
    var o := 0;
    while o < |opts|
      invariant 0 <= o <= |opts|
      invariant num == NonAliases(opts[..o]) && numShort == |ShortKeys(opts[..o])|
    {
      KeysSnoc(opts, o);
      KeysOne(opts[o]);
      NonAliasesSnoc(opts, o);
      if !opts[o].alias {
        num := num + 1;
      }
      if IsShort(opts[o]) {
        numShort := numShort + 1;
      }
      o := o + 1;
    }
    assert opts[..o] == opts;
  }

  /** The space counted suffices for one more option. */
  lemma RoomForShort(opts: seq<Opt>, o: nat)
    requires o < |opts|
    ensures |Dedup(ShortKeys(opts[..o]))| + (if IsShort(opts[o]) then 1 else 0) <= |ShortKeys(opts)|
  {
    DedupShrinks(ShortKeys(opts[..o]));
    KeysOne(opts[o]);
    SplitAt(opts, o);
  }

  lemma SplitAt(opts: seq<Opt>, i: nat)
    requires i < |opts|
    ensures ShortKeys(opts) == ShortKeys(opts[..i]) + ShortKeys([opts[i]]) + ShortKeys(opts[i + 1..])
  {
    assert ShortKeys(opts) == ShortKeys(opts[..i + 1]) + ShortKeys(opts[i + 1..]) by {
      assert opts == opts[..i + 1] + opts[i + 1..];
      ShortKeysAppend(opts[..i + 1], opts[i + 1..]);
    }
    assert ShortKeys(opts[..i + 1]) == ShortKeys(opts[..i]) + ShortKeys([opts[i]]) by {
      KeysSnoc(opts, i);
    }
  }

  /** One round of make_hol: the option at `first` and the aliases after it. */
  method FillEntry(opts: seq<Opt>, first: nat, buffer: array<Byte>, so: nat) returns (o: nat, so': nat)
    requires first < |opts| && buffer.Length == |ShortKeys(opts)| + 1
    requires so < buffer.Length && buffer[..so] == Dedup(ShortKeys(opts[..first]))
    modifies buffer
    ensures o == first + 1 + AliasRun(opts[first + 1..]) && o <= |opts|
    ensures so' < buffer.Length && buffer[..so'] == Dedup(ShortKeys(opts[..o]))
  {
    hide ShortKeys, Dedup, AliasRun, IsShort;
    o, so' := first, so;
    var again := true;
    while again
      invariant first <= o <= |opts| && so' < buffer.Length
      invariant buffer[..so'] == Dedup(ShortKeys(opts[..o]))
      invariant again ==> o < |opts|
      invariant o == first ==> again
      invariant o > first ==> AliasRun(opts[first + 1..]) == o - first - 1 + AliasRun(opts[o..])
      invariant o > first ==> again == (o < |opts| && opts[o].alias)
      decreases |opts| - o
    {
      RoomForShort(opts, o);
      KeysSnoc(opts, o);
      AliasStep(opts, o);
      so' := AddShort(opts[o], buffer, so', ShortKeys(opts[..o]));
      o := o + 1;
      again := o < |opts| && opts[o].alias;
    }
    NoMoreAliases(opts, o);
  }

  lemma AliasStep(opts: seq<Opt>, o: nat)
    requires o < |opts|
    ensures AliasRun(opts[o..]) == if opts[o].alias then 1 + AliasRun(opts[o + 1..]) else 0
  {
    assert opts[o..][1..] == opts[o + 1..];
  }

  lemma NoMoreAliases(opts: seq<Opt>, o: nat)
    requires o <= |opts| && !(o < |opts| && opts[o].alias)
    ensures AliasRun(opts[o..]) == 0
  {
  }

  /** The first `n` entries cover the first `o` options. */
  ghost predicate Walked(opts: seq<Opt>, all: seq<Entry>, n: int, o: int, current: int, cluster: int, node: nat) {
    && 0 <= n <= |all| && 0 <= o <= |opts|
    && all[n..] == Outline(opts[o..], current, cluster, node)
    && OptsOf(all[..n]) == opts[..o]
  }

  /** One step along a table and its outline. */
  lemma OutlineStep(opts: seq<Opt>, all: seq<Entry>, n: nat, o: nat, o': nat, current: int, cluster: int, node: nat)
    requires Walked(opts, all, n, o, current, cluster, node) && o < |opts|
    requires o' == o + 1 + AliasRun(opts[o + 1..])
    ensures n < |all| && o' <= |opts|
    ensures var group := EntryGroup(opts[o], current);
            && Placed(all)[n] == Entry(opts[o..o'], |Dedup(ShortKeys(opts[..o]))|, group, cluster, node)
            && Walked(opts, all, n + 1, o', group, cluster, node)
  {
    assert opts[o..][1..] == opts[o + 1..];
    assert opts[o..][..o' - o] == opts[o..o'] && opts[o..][o' - o..] == opts[o'..];
    assert all[n] == all[n..][0] && all[n + 1..] == all[n..][1..];
    assert OptsOf(all[..n + 1]) == opts[..o'] by {
      assert all[..n + 1] == all[..n] + [all[n]];
      OptsOfAppend(all[..n], [all[n]]);
      OptsOfCons(all[n], []);
      assert opts[..o] + opts[o..o'] == opts[..o'];
    }
  }

  lemma AllWalked(opts: seq<Opt>, all: seq<Entry>, n: nat, current: int, cluster: int, node: nat)
    requires Walked(opts, all, n, |opts|, current, cluster, node)
    ensures n == |all|
  {
    assert opts[|opts|..] == [];
  }

  lemma FilledHolds(buffer: seq<Byte>, so: nat, all: seq<Entry>, opts: seq<Opt>)
    requires so < |buffer| && buffer[so] == 0 && buffer[..so] == Dedup(ShortKeys(opts)) && OptsOf(all) == opts
    ensures Holds(buffer, Dedup(KeysOf(all)))
  {
    DedupMembers(ShortKeys(opts));
  }

  lemma PlacedLength(es: seq<Entry>)
    ensures |Placed(es)| == |es|
  {
  }

  /** make_hol */
  method MakeHol(argp: Argp, cluster: int, node: nat) returns (hol: Hol)
    requires Table(argp) == [] || !Table(argp)[0].alias
    ensures fresh(hol) && fresh(hol.entries) && fresh(hol.shorts)
    ensures hol.Valid() && hol.outline == Outline(Table(argp), 0, cluster, node)
  {
    hide Outline, Placed, KeysOf, Dedup, Holds, ShortKeys, OptsOf;
    hol := new Hol();
    OutlineNone([], 0, cluster, node);
    if argp.options.Some? {
      var opts := argp.options.value;
      ghost var all := Outline(opts, 0, cluster, node);
      OutlineSize(opts, 0, cluster, node);
      OutlineKeepsOpts(opts, 0, cluster, node);
      var num, numShort := CountSpace(opts);
      var entries := new Entry[num];
      var shorts := new Byte[numShort + 1];
      var so := FillHol(opts, cluster, node, entries, shorts, all);
      FilledHolds(shorts[..], so, all, opts);
      assert entries[..] == Placed(all) by {
        assert |Placed(all)| == |all| by {
          PlacedLength(all);
        }
      }
      hol.numEntries, hol.entries, hol.shorts, hol.outline := entries.Length, entries, shorts, all;
    }
  }

  /** make_hol: one entry is filled in. */
  method FillRound(opts: seq<Opt>, cluster: int, node: nat, entries: array<Entry>, shorts: array<Byte>,
                   n: nat, first: nat, so: nat, group: int, ghost all: seq<Entry>, ghost target: seq<Entry>)
    returns (o: nat, so': nat)
    requires target == Placed(all) && entries.Length == |all| && shorts.Length == |ShortKeys(opts)| + 1
    requires first < |opts| && n <= |all| && so < shorts.Length
    requires Walked(opts, all, n, first, group, cluster, node)
    requires shorts[..so] == Dedup(ShortKeys(opts[..first]))
    modifies entries, shorts
    ensures first < o <= |opts| && n < |all| && so' < shorts.Length
    ensures Walked(opts, all, n + 1, o, EntryGroup(opts[first], group), cluster, node)
    ensures shorts[..so'] == Dedup(ShortKeys(opts[..o]))
    ensures entries[n] == target[n] && forall i :: 0 <= i < |all| && i != n ==> entries[i] == old(entries[i])
  {
    o, so' := FillEntry(opts, first, shorts, so);
    OutlineStep(opts, all, n, first, o, group, cluster, node);
    entries[n] := Entry(opts[first..o], so, EntryGroup(opts[first], group), cluster, node);
  }

  /** make_hol: filling the entries and the string of a table. */
  method FillHol(opts: seq<Opt>, cluster: int, node: nat, entries: array<Entry>, shorts: array<Byte>,
                 ghost all: seq<Entry>)
    returns (so: nat)
    requires opts == [] || !opts[0].alias
    requires all == Outline(opts, 0, cluster, node) && OptsOf(all) == opts
    requires entries.Length == |all| && shorts.Length == |ShortKeys(opts)| + 1
    modifies entries, shorts
    ensures forall i :: 0 <= i < |all| ==> entries[i] == Placed(all)[i]
    ensures so < shorts.Length && shorts[so] == 0 && shorts[..so] == Dedup(ShortKeys(opts))
  {
    ghost var target := Placed(all);
    so := 0;
    var o, n, curGroup := 0, 0, 0;
    assert Walked(opts, all, n, o, curGroup, cluster, node) by {
      assert opts[0..] == opts && all[0..] == all && all[..0] == [] && opts[..0] == [];
    }
    while o < |opts|
      invariant 0 <= o <= |opts| && 0 <= n <= |all| && 0 <= so < shorts.Length
      invariant Walked(opts, all, n, o, curGroup, cluster, node)
      invariant forall i :: 0 <= i < n ==> entries[i] == target[i]
      invariant shorts[..so] == Dedup(ShortKeys(opts[..o]))
      decreases |opts| - o
    {
      var group := EntryGroup(opts[o], curGroup);
      o, so := FillRound(opts, cluster, node, entries, shorts, n, o, so, curGroup, all, target);
      curGroup := group;
      n := n + 1;
    }
    assert n == |all| by {
      AllWalked(opts, all, n, curGroup, cluster, node);
    }
    assert opts[..o] == opts;
    shorts[so] := 0;
  }

  /** One short option of MORE in hol_append: `seen` holds the keys of MORE
      before it, `d` is the string of MORE. */
  method AppendShort(key: Byte, moreShorts: array<Byte>, moreSo: nat, buffer: array<Byte>, holLen: nat, so: nat,
                     ghost a: seq<Byte>, ghost seen: seq<Byte>, ghost later: seq<Byte>)
    returns (moreSo': nat, so': nat)
    requires moreShorts != buffer && key != 0
    requires Holds(moreShorts[..], Dedup(seen + [key] + later))
    requires moreSo == |Dedup(seen)| <= |Dedup(seen + [key] + later)|
    requires holLen == |Dedup(a)| <= so <= holLen + moreSo
    requires buffer.Length == holLen + |Dedup(seen + [key] + later)| + 1
    requires buffer[..so] == Dedup(a + seen)
    modifies buffer
    ensures moreSo' == |Dedup(seen + [key])| <= |Dedup(seen + [key] + later)|
    ensures holLen <= so' <= holLen + moreSo'
    ensures buffer[..so'] == Dedup(a + (seen + [key]))
  {
    hide Dedup, Holds;
    moreSo', so' := moreSo, so;
    MergeStep(a, seen, key, later);
    NextHeld(moreShorts[..], seen, key, later);
    FirstHeld(buffer[..], a, seen, so);
    var ch := moreShorts[moreSo];
    if ch == key {
      var found := FindChar(ch, buffer, 0, holLen);
      if !found {
        buffer[so'] := ch;
        so' := so' + 1;
        assert buffer[..so'] == Dedup(a + seen) + [key];
      }
      moreSo' := moreSo' + 1;
    }
  }

  /** The next key of MORE stands in its string unless it was seen. */
  lemma NextHeld(more: seq<Byte>, seen: seq<Byte>, key: Byte, later: seq<Byte>)
    requires key != 0 && Holds(more, Dedup(seen + [key] + later))
    requires |Dedup(seen)| <= |Dedup(seen + [key] + later)|
    ensures |Dedup(seen)| < |more| && (more[|Dedup(seen)|] == key <==> key !in seen)
  {
    NextIsFresh(seen, key, later);
    HeldAt(more, Dedup(seen + [key] + later), |Dedup(seen)|);
  }

  /** HOL's own part of the merged string. */
  lemma FirstHeld(buffer: seq<Byte>, a: seq<Byte>, seen: seq<Byte>, so: nat)
    requires so <= |buffer| && buffer[..so] == Dedup(a + seen) && |Dedup(a)| <= so
    ensures buffer[0..|Dedup(a)|] == Dedup(a)
  {
    DedupPrefix(a, seen);
    assert buffer[0..|Dedup(a)|] == buffer[..so][..|Dedup(a)|];
  }

  lemma HeldAt(buffer: seq<Byte>, s: seq<Byte>, i: nat)
    requires Holds(buffer, s) && i <= |s|
    ensures buffer[i] == if i < |s| then s[i] else 0
  {
    assert i < |s| ==> buffer[..|s|][i] == s[i];
  }

  /** One option of MORE in hol_append. */
  method AppendOpt(opt: Opt, moreShorts: array<Byte>, moreSo: nat, buffer: array<Byte>, holLen: nat, so: nat,
                   ghost a: seq<Byte>, ghost seen: seq<Byte>, ghost later: seq<Byte>)
    returns (moreSo': nat, so': nat)
    requires moreShorts != buffer
    requires Holds(moreShorts[..], Dedup(seen + ShortKeys([opt]) + later))
    requires moreSo == |Dedup(seen)| <= |Dedup(seen + ShortKeys([opt]) + later)|
    requires holLen == |Dedup(a)| <= so <= holLen + moreSo
    requires buffer.Length == holLen + |Dedup(seen + ShortKeys([opt]) + later)| + 1
    requires buffer[..so] == Dedup(a + seen)
    modifies buffer
    ensures moreSo' == |Dedup(seen + ShortKeys([opt]))| <= |Dedup(seen + ShortKeys([opt]) + later)|
    ensures holLen <= so' <= holLen + moreSo'
    ensures buffer[..so'] == Dedup(a + (seen + ShortKeys([opt])))
  {
    KeysOne(opt);
    if IsShort(opt) {
      moreSo', so' := AppendShort(opt.key, moreShorts, moreSo, buffer, holLen, so, a, seen, later);
    } else {
      assert seen + [] == seen;
      moreSo', so' := moreSo, so;
    }
  }

  /** The part of hol_append that copies one entry's short options. */
  method AppendShorts(e: Entry, moreShorts: array<Byte>, start: nat, buffer: array<Byte>, holLen: nat, so: nat,
                      ghost a: seq<Byte>, ghost b: seq<Byte>, ghost rest: seq<Byte>)
    returns (moreSo: nat, so': nat)
    requires moreShorts != buffer
    requires Holds(moreShorts[..], Dedup(b + ShortKeys(e.opts) + rest))
    requires start == |Dedup(b)| <= |Dedup(b + ShortKeys(e.opts) + rest)|
    requires holLen == |Dedup(a)| <= so <= holLen + start
    requires buffer.Length == holLen + |Dedup(b + ShortKeys(e.opts) + rest)| + 1
    requires buffer[..so] == Dedup(a + b)
    modifies buffer
    ensures moreSo == |Dedup(b + ShortKeys(e.opts))|
    ensures holLen <= so' <= holLen + moreSo < buffer.Length
    ensures buffer[..so'] == Dedup(a + (b + ShortKeys(e.opts)))
  {
    moreSo, so' := start, so;
    var i := 0;
    ghost var all := b + ShortKeys(e.opts) + rest;
    ghost var seen := b;
    assert e.opts[..0] == [] && b + ShortKeys([]) == b;
    while i < |e.opts|
      invariant 0 <= i <= |e.opts| && seen == b + ShortKeys(e.opts[..i])
      invariant moreSo == |Dedup(seen)| <= |Dedup(all)|
      invariant holLen <= so' <= holLen + moreSo
      invariant buffer[..so'] == Dedup(a + seen)
      invariant Holds(moreShorts[..], Dedup(all))
    {
      var opt := e.opts[i];
      ghost var later := ShortKeys(e.opts[i + 1..]) + rest;
      assert seen + ShortKeys([opt]) + later == all by {
        SplitAll(b, e.opts, i, rest);
      }
      moreSo, so' := AppendOpt(opt, moreShorts, moreSo, buffer, holLen, so', a, seen, later);
      seen := seen + ShortKeys([opt]);
      SeenGrows(b, e.opts, i);
      i := i + 1;
    }
    assert e.opts[..i] == e.opts;
    MoreRoom(b, ShortKeys(e.opts), rest);
  }

  lemma MoreRoom(b: seq<Byte>, k: seq<Byte>, rest: seq<Byte>)
    ensures |Dedup(b + k)| <= |Dedup(b + k + rest)|
  {
    DedupPrefix(b + k, rest);
  }

  lemma SplitAll(b: seq<Byte>, opts: seq<Opt>, i: nat, rest: seq<Byte>)
    requires i < |opts|
    ensures b + ShortKeys(opts[..i]) + ShortKeys([opts[i]]) + (ShortKeys(opts[i + 1..]) + rest)
            == b + ShortKeys(opts) + rest
  {
    SplitAt(opts, i);
    Regroup(b, ShortKeys(opts[..i]), ShortKeys([opts[i]]), ShortKeys(opts[i + 1..]), rest);
  }

  lemma SeenGrows(b: seq<Byte>, opts: seq<Opt>, i: nat)
    requires i < |opts|
    ensures b + ShortKeys(opts[..i + 1]) == b + ShortKeys(opts[..i]) + ShortKeys([opts[i]])
  {
    KeysSnoc(opts, i);
    Assoc(b, ShortKeys(opts[..i]), ShortKeys([opts[i]]));
  }

  /** The offsets of a merged list. */
  lemma PlacedAppend(a: seq<Entry>, b: seq<Entry>, i: nat)
    requires i < |a + b|
    ensures Placed(a + b)[i] == if i < |a| then Placed(a)[i]
                                else b[i - |a|].(so := |Dedup(KeysOf(a) + KeysOf(b[..i - |a|]))|)
  {
    if i < |a| {
      assert (a + b)[..i] == a[..i];
    } else {
      assert (a + b)[..i] == a + b[..i - |a|];
      KeysOfAppend(a, b[..i - |a|]);
    }
  }

  /** Entry `j` of MORE stands in the merged list with its new offset. */
  ghost predicate Follows(merged: seq<Entry>, a: seq<Entry>, b: seq<Entry>, j: nat)
    requires |merged| == |a| + |b| && j < |b|
  {
    merged[|a| + j] == b[j].(so := |Dedup(KeysOf(a) + KeysOf(b[..j]))|)
  }

  /** hol_append: entry `j` of MORE gets its place in the new string. */
  method SetOffset(entries: array<Entry>, num: nat, j: nat, so: nat,
                   ghost a: seq<Entry>, ghost b: seq<Entry>, ghost merged: seq<Entry>)
    returns (e: Entry)
    requires num == |a| && entries.Length == |merged| == |a| + |b| && j < |b|
    requires Follows(merged, a, b, j) && so == |Dedup(KeysOf(a) + KeysOf(b[..j]))|
    requires forall i :: 0 <= i < |a| + j ==> entries[i] == merged[i]
    requires forall i :: j <= i < |b| ==> entries[|a| + i].(so := 0) == b[i].(so := 0)
    modifies entries
    ensures e.opts == b[j].opts
    ensures forall i :: 0 <= i < |a| + j + 1 ==> entries[i] == merged[i]
    ensures forall i :: j + 1 <= i < |b| ==> entries[|a| + i].(so := 0) == b[i].(so := 0)
  {
    e := entries[num + j];
    assert e.(so := 0) == b[j].(so := 0);
    entries[num + j] := e.(so := so);
  }

  /** hol_append: the loop over the entries of MORE. */
  method AppendEntries(entries: array<Entry>, num: nat, moreShorts: array<Byte>, buffer: array<Byte>, holLen: nat,
                       ghost a: seq<Entry>, ghost b: seq<Entry>, ghost merged: seq<Entry>)
    returns (so: nat)
    requires num == |a| && entries.Length == |merged| == |a| + |b|
    requires moreShorts != buffer && Holds(moreShorts[..], Dedup(KeysOf(b)))
    requires holLen == |Dedup(KeysOf(a))| && buffer.Length == holLen + |Dedup(KeysOf(b))| + 1
    requires buffer[..holLen] == Dedup(KeysOf(a))
    requires forall j :: 0 <= j < |b| ==> Follows(merged, a, b, j)
    requires forall i :: 0 <= i < |a| ==> entries[i] == merged[i]
    requires forall i :: 0 <= i < |b| ==> entries[|a| + i].(so := 0) == b[i].(so := 0)
    modifies entries, buffer
    ensures forall i :: 0 <= i < |merged| ==> entries[i] == merged[i]
    ensures so < buffer.Length && buffer[..so] == Dedup(KeysOf(a) + KeysOf(b))
  {
    so := holLen;
    var moreSo := 0;
    var j := 0;
    ghost var ka, kb := KeysOf(a), KeysOf(b);
    ghost var seen := [];
    assert b[..0] == [] && KeysOf([]) == [] && ka + [] == ka;
    while j < entries.Length - num
      invariant 0 <= j <= |b| && seen == KeysOf(b[..j])
      invariant moreSo == |Dedup(seen)| <= |Dedup(kb)|
      invariant holLen <= so <= holLen + moreSo
      invariant buffer[..so] == Dedup(ka + seen)
      invariant Holds(moreShorts[..], Dedup(kb))
      invariant forall i :: 0 <= i < |a| + j ==> entries[i] == merged[i]
      invariant forall i :: j <= i < |b| ==> entries[|a| + i].(so := 0) == b[i].(so := 0)
    {
      var e := SetOffset(entries, num, j, so, a, b, merged);
      ghost var rest := KeysOf(b[j + 1..]);
      assert KeysOf(b[..j + 1]) == seen + ShortKeys(e.opts) && kb == seen + ShortKeys(e.opts) + rest by {
        KeysOfSnoc(b, j);
      }
      moreSo, so := AppendShorts(e, moreShorts, moreSo, buffer, holLen, so, ka, seen, rest);
      seen := seen + ShortKeys(e.opts);
      MoreRoom(seen, [], rest);
      assert seen + [] == seen;
      j := j + 1;
    }
    assert b[..j] == b;
  }

  lemma Together(es: seq<Entry>, a: seq<Entry>, b: seq<Entry>)
    requires es == Placed(a) + Placed(b)
    ensures forall i :: 0 <= i < |a| ==> es[i] == Placed(a + b)[i]
    ensures forall j :: 0 <= j < |b| ==> Follows(Placed(a + b), a, b, j) && es[|a| + j].(so := 0) == b[j].(so := 0)
  {
    hide KeysOf, Dedup;
    forall i | 0 <= i < |a| ensures es[i] == Placed(a + b)[i] {
      PlacedAppend(a, b, i);
    }
    forall j | 0 <= j < |b|
      ensures Follows(Placed(a + b), a, b, j) && es[|a| + j].(so := 0) == b[j].(so := 0)
    {
      PlacedAppend(a, b, |a| + j);
      assert es[|a| + j] == Placed(b)[j];
    }
  }

  /** hol_append: the merged entries and string.  Buffer offsets stand for
      the pointers, so copying the string leaves HOL's entries as they are. */
  method Merge(holEntries: array<Entry>, holShorts: array<Byte>, moreEntries: array<Entry>, moreShorts: array<Byte>,
               ghost a: seq<Entry>, ghost b: seq<Entry>)
    returns (entries: array<Entry>, buffer: array<Byte>)
    requires holEntries[..] == Placed(a) && Holds(holShorts[..], Dedup(KeysOf(a)))
    requires moreEntries[..] == Placed(b) && Holds(moreShorts[..], Dedup(KeysOf(b)))
    ensures fresh(entries) && fresh(buffer)
    ensures entries.Length == |a + b| && forall i :: 0 <= i < |a + b| ==> entries[i] == Placed(a + b)[i]
    ensures Holds(buffer[..], Dedup(KeysOf(a + b)))
  {
    hide Placed, KeysOf, Dedup;
    PlacedLength(a);
    PlacedLength(b);
    PlacedLength(a + b);
    entries := CopyBoth(holEntries, moreEntries);
    var holLen := StrLen(holShorts, Dedup(KeysOf(a)));
    var moreLen := StrLen(moreShorts, Dedup(KeysOf(b)));
    buffer := new Byte[holLen + moreLen + 1];
    forall i | 0 <= i < holLen {
      buffer[i] := holShorts[i];
    }
    assert buffer[..holLen] == holShorts[..][..holLen];
    Together(entries[..], a, b);
    assert forall i :: 0 <= i < entries.Length ==> entries[i] == entries[..][i];
    var so := AppendEntries(entries, holEntries.Length, moreShorts, buffer, holLen, a, b, Placed(a + b));
    buffer[so] := 0;
    KeysOfAppend(a, b);
    assert buffer[..][..so] == Dedup(KeysOf(a + b));
    NoNulInKeys(a + b);
  }

  lemma NoNulInKeys(es: seq<Entry>)
    ensures 0 !in Dedup(KeysOf(es))
  {
    DedupMembers(KeysOf(es));
  }

  /** hol_append */
  method HolAppend(hol: Hol, more: Hol)
    requires hol != more && hol.Valid() && more.Valid()
    modifies hol, more
    ensures hol.Valid() && hol.outline == old(hol.outline) + old(more.outline)
    ensures hol.entries == old(hol.entries) || hol.entries == old(more.entries) || fresh(hol.entries)
    ensures hol.shorts == old(hol.shorts) || hol.shorts == old(more.shorts) || fresh(hol.shorts)
  {
    ghost var a, b := hol.outline, more.outline;
    if more.numEntries > 0 {
      if hol.numEntries == 0 {
        assert a + b == b;
        hol.numEntries, hol.entries, hol.shorts := more.numEntries, more.entries, more.shorts;
        hol.outline := a + b;
        more.numEntries := 0;
      } else {
        var entries, buffer := Merge(hol.entries, hol.shorts, more.entries, more.shorts, a, b);
        assert entries[..] == Placed(a + b);
        hol.numEntries, hol.entries, hol.shorts := hol.numEntries + more.numEntries, entries, buffer;
        hol.outline := a + b;
      }
    } else {
      assert a + b == a;
    }
  }

  /** mempcpy of one array of entries and then another */
  method CopyBoth(first: array<Entry>, second: array<Entry>) returns (to: array<Entry>)
    ensures fresh(to) && to[..] == first[..] + second[..]
  {
    to := new Entry[first.Length + second.Length];
    forall i | 0 <= i < first.Length {
      to[i] := first[i];
    }
    forall i | 0 <= i < second.Length {
      to[first.Length + i] := second[i];
    }
  }

  lemma WithClusterKeepsForest(child: Child, index: nat, cluster: int, f: Forest)
    requires ValidForest(f) && InForest(f, cluster)
    ensures ValidForest(WithChildCluster(child, index, cluster, f))
    ensures InForest(WithChildCluster(child, index, cluster, f), ChildCluster(child, cluster, f))
  {
    var f2 := WithChildCluster(child, index, cluster, f);
    forall c | 0 <= c < |f2| ensures DepthFits(f2, c) {
      if c < |f| {
        assert DepthFits(f, c);
      }
    }
  }

  lemma {:induction false} PlaceKeepsForest(a: Argp, i: nat, cluster: int, f: Forest)
    requires i <= |a.children| && ValidForest(f) && InForest(f, cluster)
    ensures ValidForest(PlaceUpTo(a, i, cluster, f).forest)
    decreases a, i
  {
    if i > 0 {
      PlaceKeepsForest(a, i - 1, cluster, f);
      var f1 := PlaceUpTo(a, i - 1, cluster, f).forest;
      var child := a.children[i - 1];
      WithClusterKeepsForest(child, i - 1, cluster, f1);
      PlaceKeepsForest(child.argp, |child.argp.children|, ChildCluster(child, cluster, f1),
                       WithChildCluster(child, i - 1, cluster, f1));
    }
  }

  lemma NodesUpToPart(a: Argp, i: nat)
    requires i <= |a.children|
    ensures NodesUpTo(a, i) <= Nodes(a)
    ensures i < |a.children| ==> NodesUpTo(a, i) + Nodes(a.children[i].argp) == NodesUpTo(a, i + 1)
    decreases |a.children| - i
  {
    if i < |a.children| {
      NodesUpToPart(a, i + 1);
    }
  }

  lemma ChildNoLeadingAlias(a: Argp, i: nat)
    requires NoLeadingAlias(a) && i < |a.children|
    ensures NoLeadingAlias(a.children[i].argp)
  {
    NodesUpToPart(a, i);
    NodesUpToPart(a, i + 1);
    var ns := Nodes(a.children[i].argp);
    forall n | n in ns ensures n in Nodes(a) {
      assert n in NodesUpTo(a, i + 1);
    }
  }

  /** The cluster argp_hol puts a child's entries in. */
  method ClusterForChild(child: Child, index: nat, cluster: int, arena: Arena) returns (childCluster: int)
    requires ValidForest(arena.f) && InForest(arena.f, cluster)
    modifies arena
    ensures ValidForest(arena.f) && arena.f == WithChildCluster(child, index, cluster, old(arena.f))
    ensures childCluster == ChildCluster(child, cluster, old(arena.f)) && InForest(arena.f, childCluster)
  {
    childCluster := cluster;
    if child.group != 0 || child.header {
      childCluster := arena.HolAddCluster(child.group, index, cluster);
    }
  }

  lemma EntriesForOne(a: Argp, cluster: int, node: nat)
    ensures EntriesFor([a], [cluster], node) == Outline(Table(a), 0, cluster, node)
  {
    var o := Outline(Table(a), 0, cluster, node);
    assert Outlines([a], [cluster], node) == [o];
    FlattenSnoc([o], 0);
    assert [o][..1] == [o];
  }

  lemma NextChild(a: Argp, i: nat, cluster: int, f: Forest, node: nat)
    requires i < |a.children|
    ensures var child := a.children[i];
            var before, after := PlaceUpTo(a, i, cluster, f), PlaceUpTo(a, i + 1, cluster, f);
            var sub := Place(child.argp, ChildCluster(child, cluster, before.forest),
                             WithChildCluster(child, i, cluster, before.forest));
            && after.forest == sub.forest
            && |NodesUpTo(a, i + 1)| == |NodesUpTo(a, i)| + |Nodes(child.argp)|
            && EntriesFor(NodesUpTo(a, i + 1), after.clusters, node)
                 == EntriesFor(NodesUpTo(a, i), before.clusters, node)
                    + EntriesFor(Nodes(child.argp), sub.clusters, node + |NodesUpTo(a, i)|)
  {
    var child := a.children[i];
    var before := PlaceUpTo(a, i, cluster, f);
    var sub := Place(child.argp, ChildCluster(child, cluster, before.forest),
                     WithChildCluster(child, i, cluster, before.forest));
    assert PlaceUpTo(a, i + 1, cluster, f) == Placing(before.clusters + sub.clusters, sub.forest);
    assert NodesUpTo(a, i + 1) == NodesUpTo(a, i) + Nodes(child.argp);
    hide Place, PlaceUpTo, NodesUpTo, Nodes, EntriesFor, ChildCluster, WithChildCluster;
    EntriesForAppend(NodesUpTo(a, i), before.clusters, Nodes(child.argp), sub.clusters, node);
  }

  /** argp_hol: the entries of one child are appended. */
  method AttachChild(hol: Hol, child: Child, index: nat, cluster: int, arena: Arena, next: nat)
    returns (ghost added: seq<Entry>)
    requires NoLeadingAlias(child.argp) && hol.Valid()
    requires ValidForest(arena.f) && InForest(arena.f, cluster)
    modifies hol, arena
    ensures hol.Valid() && ValidForest(arena.f) && |old(arena.f)| <= |arena.f|
    ensures hol.entries == old(hol.entries) || fresh(hol.entries)
    ensures hol.shorts == old(hol.shorts) || fresh(hol.shorts)
    ensures var sub := Place(child.argp, ChildCluster(child, cluster, old(arena.f)),
                             WithChildCluster(child, index, cluster, old(arena.f)));
            && arena.f == sub.forest
            && added == EntriesFor(Nodes(child.argp), sub.clusters, next)
    ensures hol.outline == old(hol.outline) + added
    decreases child.argp, 2
  {
    var childCluster := ClusterForChild(child, index, cluster, arena);
    var more := ArgpHol(child.argp, childCluster, arena, next);
    added := more.outline;
    HolAppend(hol, more);
  }

  /** The list after argp_hol has gone through `i` children. */
  ghost predicate HolUpTo(hol: Hol, a: Argp, i: nat, cluster: int, arena: Arena, node: nat, f0: Forest)
    requires i <= |a.children|
    reads hol, hol.entries, hol.shorts, arena
  {
    var placed := PlaceUpTo(a, i, cluster, f0);
    && hol.Valid() && ValidForest(arena.f)
    && arena.f == placed.forest && hol.outline == EntriesFor(NodesUpTo(a, i), placed.clusters, node)
  }

  /** argp_hol: one round of its loop. */
  method AddChild(hol: Hol, a: Argp, i: nat, cluster: int, arena: Arena, next: nat, ghost node: nat, ghost f0: Forest)
    requires i < |a.children| && NoLeadingAlias(a.children[i].argp)
    requires HolUpTo(hol, a, i, cluster, arena, node, f0) && InForest(arena.f, cluster)
    requires next == node + |NodesUpTo(a, i)|
    modifies hol, arena
    ensures HolUpTo(hol, a, i + 1, cluster, arena, node, f0) && InForest(arena.f, cluster)
    ensures hol.entries == old(hol.entries) || fresh(hol.entries)
    ensures hol.shorts == old(hol.shorts) || fresh(hol.shorts)
    decreases a, 0
  {
    hide PlaceUpTo, NodesUpTo, Nodes, Place, EntriesFor;
    ghost var added := AttachChild(hol, a.children[i], i, cluster, arena, next);
    NextChild(a, i, cluster, f0, node);
  }

  lemma RootFirst(a: Argp, cluster: int, f: Forest, node: nat)
    ensures |NodesUpTo(a, 0)| == 1 && PlaceUpTo(a, 0, cluster, f).forest == f
    ensures EntriesFor(NodesUpTo(a, 0), PlaceUpTo(a, 0, cluster, f).clusters, node)
            == Outline(Table(a), 0, cluster, node)
    ensures Nodes(a) == NodesUpTo(a, |a.children|) && Place(a, cluster, f) == PlaceUpTo(a, |a.children|, cluster, f)
    ensures NoLeadingAlias(a) ==> Table(a) == [] || !Table(a)[0].alias
  {
    assert Nodes(a)[0] == a;
    EntriesForOne(a, cluster, node);
  }

  /** argp_hol: the entries of every argp of the tree in preorder, each in the
      cluster its place in the tree gives it. */
  method ArgpHol(a: Argp, cluster: int, arena: Arena, node: nat) returns (hol: Hol)
    requires NoLeadingAlias(a) && ValidForest(arena.f) && InForest(arena.f, cluster)
    modifies arena
    ensures fresh(hol) && fresh(hol.entries) && fresh(hol.shorts) && hol.Valid()
    ensures arena.f == Place(a, cluster, old(arena.f)).forest && ValidForest(arena.f)
    ensures hol.outline == EntriesFor(Nodes(a), Place(a, cluster, old(arena.f)).clusters, node)
    decreases a, 1
  {
    hide HolUpTo, Hol.Valid, PlaceUpTo, Place, NodesUpTo, Nodes, EntriesFor, NoLeadingAlias, Outline, ValidForest;
    ghost var f0 := arena.f;
    RootFirst(a, cluster, f0, node);
    hol := MakeHol(a, cluster, node);
    FirstUpTo(hol, a, cluster, arena, node, f0);
    var next := node + 1;
    var i := 0;
    while i < |a.children|
      invariant 0 <= i <= |a.children| && next == node + |NodesUpTo(a, i)|
      invariant fresh(hol) && fresh(hol.entries) && fresh(hol.shorts)
      invariant HolUpTo(hol, a, i, cluster, arena, node, f0) && InForest(arena.f, cluster)
    {
      ChildNoLeadingAlias(a, i);
      AddChild(hol, a, i, cluster, arena, next, node, f0);
      NextNodes(a, i);
      next := next + |Nodes(a.children[i].argp)|;
      i := i + 1;
    }
    AllUpTo(hol, a, cluster, arena, node, f0);
  }

  lemma NextNodes(a: Argp, i: nat)
    requires i < |a.children|
    ensures |NodesUpTo(a, i + 1)| == |NodesUpTo(a, i)| + |Nodes(a.children[i].argp)|
  {
  }

  lemma FirstUpTo(hol: Hol, a: Argp, cluster: int, arena: Arena, node: nat, f0: Forest)
    requires hol.Valid() && hol.outline == Outline(Table(a), 0, cluster, node) && arena.f == f0 && ValidForest(f0)
    ensures HolUpTo(hol, a, 0, cluster, arena, node, f0)
  {
    hide Hol.Valid, PlaceUpTo, NodesUpTo, Nodes, EntriesFor, NoLeadingAlias, Outline, ValidForest;
    RootFirst(a, cluster, f0, node);
  }

  lemma AllUpTo(hol: Hol, a: Argp, cluster: int, arena: Arena, node: nat, f0: Forest)
    requires HolUpTo(hol, a, |a.children|, cluster, arena, node, f0)
    ensures hol.Valid() && arena.f == Place(a, cluster, f0).forest && ValidForest(arena.f)
    ensures hol.outline == EntriesFor(Nodes(a), Place(a, cluster, f0).clusters, node)
  {
    hide Hol.Valid, PlaceUpTo, Place, NodesUpTo, Nodes, EntriesFor, NoLeadingAlias, Outline, ValidForest;
    RootFirst(a, cluster, f0, node);
  }
}
