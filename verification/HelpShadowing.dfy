/** What the finished help list of a tree says about short options. */
module HelpShadowing {
  import opened ArgpOptions
  import opened HolEntries
  import opened FirstSeen
  import opened ArgpHelp

  /** The tables of a list of argps, one after the other. */
  function Tables(nodes: seq<Argp>): seq<seq<Opt>> {
    seq(|nodes|, i requires 0 <= i < |nodes| => Table(nodes[i]))
  }

  function AllOptions(nodes: seq<Argp>): seq<Opt> {
    Flatten(Tables(nodes))
  }

  /** The short options of `opts` whose key is declared neither in `before`
      nor by an earlier option of `opts`. */
  function Unshadowed(opts: seq<Opt>, before: seq<Byte>): seq<Opt> {
    if opts == [] then []
    else if !IsShort(opts[0]) then Unshadowed(opts[1..], before)
    else (if opts[0].key in before then [] else [opts[0]]) + Unshadowed(opts[1..], before + [opts[0].key])
  }

  lemma {:induction false} KeptIsUnshadowed(opts: seq<Opt>, s: seq<Byte>, so: nat, before: seq<Byte>, rest: seq<Byte>)
    requires s == Dedup(before + ShortKeys(opts) + rest) && so == |Dedup(before)|
    ensures Kept(opts, s, so) == Unshadowed(opts, before)
    decreases |opts|
  {
    hide Dedup, CharAt;
    if opts != [] {
      var o, tail := opts[0], ShortKeys(opts[1..]);
      if !IsShort(o) {
        assert ShortKeys(opts) == tail;
        KeptIsUnshadowed(opts[1..], s, so, before, rest);
      } else {
        StepPastKey(before, o.key, tail, rest, s, so);
        var so' := if o.key in before then so else so + 1;
        KeptIsUnshadowed(opts[1..], s, so', before + [o.key], rest);
      }
    }
  }

  lemma StepPastKey(before: seq<Byte>, k: Byte, tail: seq<Byte>, rest: seq<Byte>, s: seq<Byte>, so: nat)
    requires k != 0 && s == Dedup(before + ([k] + tail) + rest) && so == |Dedup(before)|
    ensures CharAt(s, so) == k <==> k !in before
    ensures s == Dedup((before + [k]) + tail + rest)
    ensures |Dedup(before + [k])| == if k in before then so else so + 1
  {
    assert before + ([k] + tail) + rest == before + [k] + (tail + rest);
    assert before + [k] + (tail + rest) == (before + [k]) + tail + rest;
    MergeStep([], before, k, tail + rest);
  }

  lemma {:induction false} UnshadowedKeys(opts: seq<Opt>, before: seq<Byte>, k: Byte)
    ensures (exists o :: o in Unshadowed(opts, before) && o.key == k) <==> k in ShortKeys(opts) && k !in before
  {
    if opts != [] {
      var o := opts[0];
      var rest := if IsShort(o) then Unshadowed(opts[1..], before + [o.key]) else Unshadowed(opts[1..], before);
      if IsShort(o) {
        UnshadowedKeys(opts[1..], before + [o.key], k);
        if o.key == k && k !in before {
          assert o in Unshadowed(opts, before);
        }
      } else {
        UnshadowedKeys(opts[1..], before, k);
      }
      if x :| x in rest && x.key == k {
        assert x in Unshadowed(opts, before);
      }
    }
  }

  /** The list of entries of a tree holds exactly the tree's options in
      preorder. */
  lemma {:induction false} EntriesHoldAllOptions(nodes: seq<Argp>, clusters: seq<int>, base: nat)
    requires |nodes| == |clusters|
    ensures OptsOf(EntriesFor(nodes, clusters, base)) == AllOptions(nodes)
    decreases |nodes|
  {
    if nodes != [] {
      var n := |nodes| - 1;
      var init, last := EntriesFor(nodes[..n], clusters[..n], base), Outline(Table(nodes[n]), 0, clusters[n], base + n);
      EntriesHoldAllOptions(nodes[..n], clusters[..n], base);
      SplitLast(nodes, clusters, base);
      assert OptsOf(init + last) == OptsOf(init) + OptsOf(last) by {
        OptsOfAppend(init, last);
      }
      OutlineKeepsOpts(Table(nodes[n]), 0, clusters[n], base + n);
    } else {
      assert Outlines(nodes, clusters, base) == [] && Tables(nodes) == [];
    }
  }

  lemma SplitLast(nodes: seq<Argp>, clusters: seq<int>, base: nat)
    requires |nodes| == |clusters| && nodes != []
    ensures var n := |nodes| - 1;
            && EntriesFor(nodes, clusters, base)
                 == EntriesFor(nodes[..n], clusters[..n], base) + Outline(Table(nodes[n]), 0, clusters[n], base + n)
            && AllOptions(nodes) == AllOptions(nodes[..n]) + Table(nodes[n])
  {
    var n := |nodes| - 1;
    var os, ts := Outlines(nodes, clusters, base), Tables(nodes);
    FlattenSnoc(os, n);
    FlattenSnoc(ts, n);
    assert os[..n + 1] == os && ts[..n + 1] == ts;
    assert os[..n] == Outlines(nodes[..n], clusters[..n], base) && ts[..n] == Tables(nodes[..n]);
  }

  /** The list of a tree, entries in the order argp_hol builds it. */
  ghost function ListOf(a: Argp): seq<Entry> {
    EntriesFor(Nodes(a), Place(a, NO_CLUSTER, []).clusters, 0)
  }

  /** The string of the whole list is the first-occurrence deduplication of
      the tree's short keys in preorder, and reading it from any entry's
      offset visits exactly the entry's visible options that no earlier option
      of the tree shadows. */
  lemma HelpShowsUnshadowed(a: Argp, i: nat)
    requires i < |ListOf(a)|
    ensures KeysOf(ListOf(a)) == ShortKeys(AllOptions(Nodes(a)))
    ensures OptsOf(ListOf(a)[..i]) + ListOf(a)[i].opts <= AllOptions(Nodes(a))
    ensures var s := Dedup(ShortKeys(AllOptions(Nodes(a))));
            Visible(Kept(ListOf(a)[i].opts, s, Placed(ListOf(a))[i].so))
            == Visible(Unshadowed(ListOf(a)[i].opts, ShortKeys(OptsOf(ListOf(a)[..i]))))
  {
    hide OptsOf, Kept, Unshadowed, ShortKeys, Flatten, Dedup, Nodes, Place, EntriesFor, Visible;
    var es := ListOf(a);
    EntriesHoldAllOptions(Nodes(a), Place(a, NO_CLUSTER, []).clusters, 0);
    OptsUpTo(es, i);
    assert KeysOf(es) == KeysOf(es[..i]) + ShortKeys(es[i].opts) + KeysOf(es[i + 1..]) by {
      KeysOfSnoc(es, i);
    }
    KeptIsUnshadowed(es[i].opts, Dedup(KeysOf(es)), Offset(es, i), KeysOf(es[..i]), KeysOf(es[i + 1..]));
  }

  /** Reading the buffer gives what reading the string in it gives. */
  lemma {:induction false} KeptInBuffer(opts: seq<Opt>, buffer: seq<Byte>, s: seq<Byte>, so: nat)
    requires Holds(buffer, s) && so <= |s|
    ensures Kept(opts, buffer, so) == Kept(opts, s, so)
  {
    if opts != [] {
      HeldAt(buffer, s, so);
      hide Holds;
      if IsShort(opts[0]) && CharAt(s, so) == opts[0].key {
        KeptInBuffer(opts[1..], buffer, s, so + 1);
      } else {
        KeptInBuffer(opts[1..], buffer, s, so);
      }
    }
  }

  lemma OptsUpTo(es: seq<Entry>, i: nat)
    requires i < |es|
    ensures OptsOf(es) == OptsOf(es[..i]) + es[i].opts + OptsOf(es[i + 1..])
  {
    OptsOfCons(es[i], []);
    assert [es[i]] + [] == [es[i]] && es[i].opts + OptsOf([]) == es[i].opts;
    hide OptsOf;
    assert OptsOf(es) == OptsOf(es[..i + 1]) + OptsOf(es[i + 1..]) by {
      assert es == es[..i + 1] + es[i + 1..];
      OptsOfAppend(es[..i + 1], es[i + 1..]);
    }
    assert OptsOf(es[..i + 1]) == OptsOf(es[..i]) + es[i].opts by {
      assert es[..i] + [es[i]] == es[..i + 1];
      OptsOfAppend(es[..i], [es[i]]);
    }
  }

  // ---------------------------------------------------------------------
  // Which argp keeps a key

  /** The first argp of the list whose table declares the short key. */
  function FirstDeclarer(nodes: seq<Argp>, k: Byte): (p: nat)
    ensures p <= |nodes|
    ensures p < |nodes| ==> k in ShortKeys(Table(nodes[p]))
    ensures forall q :: 0 <= q < p ==> k !in ShortKeys(Table(nodes[q]))
  {
    if nodes == [] then 0
    else if k in ShortKeys(Table(nodes[0])) then 0
    else 1 + FirstDeclarer(nodes[1..], k)
  }

  /** The entry keeps the key: its part of the string holds it. */
  ghost predicate Keeps(es: seq<Entry>, i: nat, k: Byte)
    requires i < |es|
  {
    exists o :: o in Kept(es[i].opts, Dedup(KeysOf(es)), Offset(es, i)) && o.key == k
  }

  lemma KeepsMeansFirst(es: seq<Entry>, i: nat, k: Byte)
    requires i < |es|
    ensures Keeps(es, i, k) <==> k in ShortKeys(es[i].opts) && k !in KeysOf(es[..i])
  {
    KeysOfSnoc(es, i);
    KeptIsUnshadowed(es[i].opts, Dedup(KeysOf(es)), Offset(es, i), KeysOf(es[..i]), KeysOf(es[i + 1..]));
    UnshadowedKeys(es[i].opts, KeysOf(es[..i]), k);
  }

  lemma {:induction false} ShortKeysOfAll(nodes: seq<Argp>, k: Byte)
    ensures k in ShortKeys(AllOptions(nodes)) <==> exists p :: 0 <= p < |nodes| && k in ShortKeys(Table(nodes[p]))
    decreases |nodes|
  {
    if nodes == [] {
      assert Tables(nodes) == [];
    } else {
      var n := |nodes| - 1;
      SplitLast(nodes, seq(|nodes|, i => 0), 0);
      ShortKeysOfAll(nodes[..n], k);
      ShortKeysAppend(AllOptions(nodes[..n]), Table(nodes[n]));
      assert forall p :: 0 <= p < n ==> nodes[..n][p] == nodes[p];
    }
  }

  /** An entry that keeps a key belongs to the key's first declarer. */
  lemma KeeperIsFirstDeclarer(nodes: seq<Argp>, clusters: seq<int>, base: nat, i: nat, k: Byte)
    requires |nodes| == |clusters| && i < |EntriesFor(nodes, clusters, base)|
    requires k in ShortKeys(EntriesFor(nodes, clusters, base)[i].opts)
    requires k !in KeysOf(EntriesFor(nodes, clusters, base)[..i])
    ensures EntriesFor(nodes, clusters, base)[i].node == base + FirstDeclarer(nodes, k)
  {
    hide Flatten, Outline, ShortKeys, OptsOf, FirstDeclarer;
    var os := Outlines(nodes, clusters, base);
    var p, j := Locate(os, i);
    var e: Entry := os[p][j];
    assert e.node == base + p && k in ShortKeys(Table(nodes[p])) by {
      OutlineEntries(Table(nodes[p]), 0, clusters[p], base + p, j);
      OutlineDeclares(Table(nodes[p]), 0, clusters[p], base + p, j, k);
    }
    var before := EntriesFor(nodes[..p], clusters[..p], base);
    assert k !in KeysOf(before) by {
      assert os[..p] == Outlines(nodes[..p], clusters[..p], base);
      KeysOfAppend(before, os[p][..j]);
    }
    forall q | 0 <= q < p ensures k !in ShortKeys(Table(nodes[q])) {
      NotDeclaredBefore(nodes[..p], clusters[..p], base, k, q);
    }
    FirstDeclarerUnique(nodes, k, p);
  }

  lemma OutlineDeclares(opts: seq<Opt>, current: int, cluster: int, node: nat, j: nat, k: Byte)
    requires j < |Outline(opts, current, cluster, node)|
    requires k in ShortKeys(Outline(opts, current, cluster, node)[j].opts)
    ensures k in ShortKeys(opts)
  {
    OutlineKeepsOpts(opts, current, cluster, node);
    KeysOfSnoc(Outline(opts, current, cluster, node), j);
  }

  lemma NotDeclaredBefore(nodes: seq<Argp>, clusters: seq<int>, base: nat, k: Byte, q: nat)
    requires |nodes| == |clusters| && k !in KeysOf(EntriesFor(nodes, clusters, base)) && q < |nodes|
    ensures k !in ShortKeys(Table(nodes[q]))
  {
    EntriesHoldAllOptions(nodes, clusters, base);
    ShortKeysOfAll(nodes, k);
  }

  lemma FirstDeclarerUnique(nodes: seq<Argp>, k: Byte, p: nat)
    requires p < |nodes| && k in ShortKeys(Table(nodes[p]))
    requires forall q :: 0 <= q < p ==> k !in ShortKeys(Table(nodes[q]))
    ensures FirstDeclarer(nodes, k) == p
  {
  }

  /** Every declared key is kept by some entry. */
  lemma {:induction false} SomeEntryKeeps(es: seq<Entry>, k: Byte, n: nat) returns (i: nat)
    requires n <= |es| && k in KeysOf(es[..n])
    ensures i < n && Keeps(es, i, k)
    decreases n
  {
    if n == 0 {
      assert false;
    } else {
      KeysOfSnoc(es, n - 1);
      if k in KeysOf(es[..n - 1]) {
        i := SomeEntryKeeps(es, k, n - 1);
      } else {
        i := n - 1;
        KeepsMeansFirst(es, i, k);
      }
    }
  }

  /** The one argp whose entry keeps a key is the key's first declarer. */
  lemma HelpKeepsAtFirstDeclarer(a: Argp, k: Byte)
    ensures forall i :: 0 <= i < |ListOf(a)| && Keeps(ListOf(a), i, k) ==>
              ListOf(a)[i].node == FirstDeclarer(Nodes(a), k)
    ensures FirstDeclarer(Nodes(a), k) < |Nodes(a)| ==> exists i :: 0 <= i < |ListOf(a)| && Keeps(ListOf(a), i, k)
  {
    var es := ListOf(a);
    var clusters := Place(a, NO_CLUSTER, []).clusters;
    forall i | 0 <= i < |es| && Keeps(es, i, k) ensures es[i].node == FirstDeclarer(Nodes(a), k) {
      KeepsMeansFirst(es, i, k);
      KeeperIsFirstDeclarer(Nodes(a), clusters, 0, i, k);
    }
    if FirstDeclarer(Nodes(a), k) < |Nodes(a)| {
      ShortKeysOfAll(Nodes(a), k);
      EntriesHoldAllOptions(Nodes(a), clusters, 0);
      assert es[..|es|] == es;
      var i := SomeEntryKeeps(es, k, |es|);
    }
  }
}
