/** What the help list of a tree is made of: groups, clusters, order. */
module HelpList {
  import opened ArgpOptions
  import opened HolEntries
  import opened FirstSeen
  import opened ArgpHelp
  import opened HelpShadowing
  import opened ArgpOrder

  /** An option and its aliases, entry by entry. */
  predicate Headed(es: seq<Entry>) {
    forall i :: 0 <= i < |es| ==> HasHead(es[i].opts)
  }

  predicate HasHead(opts: seq<Opt>) {
    opts != [] && forall j :: 1 <= j < |opts| ==> opts[j].alias
  }

  /** Every entry built for a tree has an option and lies in the forest, so
      that the comparator orders the entries. */
  lemma BuiltEntriesAreValid(a: Argp, cluster: int, f: Forest, base: nat, i: nat)
    requires ValidForest(f) && InForest(f, cluster)
    requires i < |EntriesFor(Nodes(a), Place(a, cluster, f).clusters, base)|
    ensures var e := EntriesFor(Nodes(a), Place(a, cluster, f).clusters, base)[i];
            HasHead(e.opts) && InForest(Place(a, cluster, f).forest, e.cluster)
  {
    hide Place, Flatten, Outline;
    var os := Outlines(Nodes(a), Place(a, cluster, f).clusters, base);
    var p, j := Locate(os, i);
    OutlineEntries(Table(Nodes(a)[p]), 0, Place(a, cluster, f).clusters[p], base + p, j);
    PlacesInForest(a, cluster, f, p);
  }

  /** The groups of a list: each argp's first entry starts from group 0. */
  lemma ListGroups(nodes: seq<Argp>, clusters: seq<int>, base: nat, i: nat)
    requires |nodes| == |clusters| && i < |EntriesFor(nodes, clusters, base)|
    ensures var es := EntriesFor(nodes, clusters, base);
            GroupFollows(es[i], if i > 0 && es[i - 1].node == es[i].node then es[i - 1].group else 0)
  {
    hide Flatten, Outline, GroupFollows;
    var os, es := Outlines(nodes, clusters, base), EntriesFor(nodes, clusters, base);
    var p, j := Locate(os, i);
    OutlineGroups(Table(nodes[p]), 0, clusters[p], base + p, j);
    OutlineEntries(Table(nodes[p]), 0, clusters[p], base + p, j);
    if i > 0 {
      var q, k := Locate(os, i - 1);
      OutlineEntries(Table(nodes[q]), 0, clusters[q], base + q, k);
      Neighbours(os, i, p, j, q, k);
    }
  }

  /** Neighbouring elements of the whole: neighbours in one part, or the first
      of a part and something before it. */
  lemma Neighbours<T>(ss: seq<seq<T>>, i: nat, p: nat, j: nat, q: nat, k: nat)
    requires 0 < i < |Flatten(ss)| && p < |ss| && j < |ss[p]| && q < |ss| && k < |ss[q]|
    requires Flatten(ss)[..i] == Flatten(ss[..p]) + ss[p][..j] && Flatten(ss)[..i - 1] == Flatten(ss[..q]) + ss[q][..k]
    ensures q == p ==> j == k + 1
    ensures j > 0 ==> q == p
  {
    FlattenGrows(ss, p, q);
    FlattenGrows(ss, q, p);
    hide Flatten;
    assert |Flatten(ss[..p])| + j == i && |Flatten(ss[..q])| + k == i - 1;
  }

  lemma FlattenGrows<T>(ss: seq<seq<T>>, p: nat, q: nat)
    requires p < |ss| && q < |ss|
    ensures p < q ==> |Flatten(ss[..p])| + |ss[p]| <= |Flatten(ss[..q])|
  {
    if p < q {
      hide Flatten;
      FlattenSnoc(ss[..q], p);
      assert ss[..q][..p] == ss[..p] && ss[..q][p] == ss[p];
    }
  }

  predicate Extends(p: Placing, q: Placing) {
    p.clusters <= q.clusters && p.forest <= q.forest
  }

  lemma ExtendsSelf(p: Placing)
    ensures Extends(p, p)
  {
  }

  lemma ExtendsOn(p: Placing, q: Placing, r: Placing)
    requires Extends(p, q) && Extends(q, r)
    ensures Extends(p, r)
  {
  }

  lemma {:induction false} PlaceGrows(a: Argp, i: nat, j: nat, cluster: int, f: Forest)
    requires i <= j <= |a.children|
    ensures Extends(PlaceUpTo(a, i, cluster, f), PlaceUpTo(a, j, cluster, f))
    decreases j - i
  {
    hide PlaceUpTo, NodesUpTo, Extends;
    ExtendsSelf(PlaceUpTo(a, i, cluster, f));
    if i < j {
      PlaceGrows(a, i, j - 1, cluster, f);
      OneMorePlaced(a, j - 1, cluster, f);
      ExtendsOn(PlaceUpTo(a, i, cluster, f), PlaceUpTo(a, j - 1, cluster, f), PlaceUpTo(a, j, cluster, f));
    }
  }

  lemma OneMorePlaced(a: Argp, i: nat, cluster: int, f: Forest)
    requires i < |a.children|
    ensures Extends(PlaceUpTo(a, i, cluster, f), PlaceUpTo(a, i + 1, cluster, f))
  {
    hide Place, PlaceUpTo, ChildCluster, WithChildCluster, Nodes, NodesUpTo;
    var child, before := a.children[i], PlaceUpTo(a, i, cluster, f);
    PlaceStep(a, i, cluster, f);
    ForestGrows(child, i, cluster, before.forest);
  }

  lemma ForestGrows(child: Child, i: nat, cluster: int, f: Forest)
    ensures f <= WithChildCluster(child, i, cluster, f)
  {
  }

  lemma PlaceStep(a: Argp, i: nat, cluster: int, f: Forest)
    requires i < |a.children|
    ensures var child, before := a.children[i], PlaceUpTo(a, i, cluster, f);
            var sub := Place(child.argp, ChildCluster(child, cluster, before.forest),
                             WithChildCluster(child, i, cluster, before.forest));
            && PlaceUpTo(a, i + 1, cluster, f) == Placing(before.clusters + sub.clusters, sub.forest)
            && WithChildCluster(child, i, cluster, before.forest) <= sub.forest
  {
  }

  lemma PlaceAll(a: Argp, cluster: int, f: Forest)
    ensures Place(a, cluster, f) == PlaceUpTo(a, |a.children|, cluster, f)
    ensures PlaceUpTo(a, 0, cluster, f).forest == f && Nodes(a) == NodesUpTo(a, |a.children|)
  {
  }

  lemma RootPlaced(a: Argp, cluster: int, f: Forest)
    ensures Place(a, cluster, f).clusters != [] && Place(a, cluster, f).clusters[0] == cluster
  {
    PlaceGrows(a, 0, |a.children|, cluster, f);
  }

  /** Where a tree's argps are placed: the root in the given cluster, a child
      with a group or a header in a new cluster below it that has the child's
      group and index, any other child where its parent is. */
  lemma ChildPlaced(a: Argp, i: nat, cluster: int, f: Forest)
    requires i < |a.children| && InForest(f, cluster)
    ensures var p, r, child := Place(a, cluster, f), |NodesUpTo(a, i)|, a.children[i];
            && r < |p.clusters| == |Nodes(a)| && Nodes(a)[r] == child.argp && p.clusters[0] == cluster
            && (child.group == 0 && !child.header ==> p.clusters[r] == cluster)
            && (child.group != 0 || child.header ==>
                  var c := p.clusters[r];
                  && c == |PlaceUpTo(a, i, cluster, f).forest| < |p.forest|
                  && p.forest[c] == Cluster(child.group, i, cluster,
                                            if cluster == NO_CLUSTER then 0 else f[cluster].depth + 1))
  {
    hide Place, Nodes, NodesUpTo;
    var child, before := a.children[i], PlaceUpTo(a, i, cluster, f);
    var under := ChildCluster(child, cluster, before.forest);
    var grown := WithChildCluster(child, i, cluster, before.forest);
    RootPlaced(child.argp, under, grown);
    PlaceStep(a, i, cluster, f);
    PlaceGrows(a, 0, i, cluster, f);
    PlaceGrows(a, i + 1, |a.children|, cluster, f);
    PlaceAll(a, cluster, f);
    RootPlaced(a, cluster, f);
    NodesUpToPart(a, i);
    NodesUpToPart(a, i + 1);
  }

  lemma {:induction false} PlacesInForest(a: Argp, cluster: int, f: Forest, p: nat)
    requires InForest(f, cluster) && p < |Nodes(a)|
    ensures InForest(Place(a, cluster, f).forest, Place(a, cluster, f).clusters[p])
    decreases a, |a.children| + 1
  {
    PlacesUpTo(a, |a.children|, cluster, f, p);
  }

  lemma {:induction false} PlacesUpTo(a: Argp, i: nat, cluster: int, f: Forest, p: nat)
    requires InForest(f, cluster) && i <= |a.children| && p < |NodesUpTo(a, i)|
    ensures InForest(PlaceUpTo(a, i, cluster, f).forest, PlaceUpTo(a, i, cluster, f).clusters[p])
    decreases a, i
  {
    if i > 0 {
      var before := PlaceUpTo(a, i - 1, cluster, f);
      var child := a.children[i - 1];
      if p < |before.clusters| {
        PlacesUpTo(a, i - 1, cluster, f, p);
      } else {
        PlacesInForest(child.argp, ChildCluster(child, cluster, before.forest),
                       WithChildCluster(child, i - 1, cluster, before.forest), p - |before.clusters|);
      }
    }
  }

  /** Every entry of a tree is an option and its aliases. */
  lemma TreeIsHeaded(a: Argp)
    ensures Headed(ListOf(a))
  {
    forall i | 0 <= i < |ListOf(a)| ensures HasHead(ListOf(a)[i].opts) {
      BuiltEntriesAreValid(a, NO_CLUSTER, [], 0, i);
    }
  }

  /** The comparator of hol_sort is a total preorder on the list of a tree,
      whatever string the list has. */
  lemma ListIsOrdered(a: Argp, s: seq<Byte>, i: nat, j: nat, k: nat)
    requires i < |ListOf(a)| && j < |ListOf(a)| && k < |ListOf(a)|
    ensures var f, es := Place(a, NO_CLUSTER, []).forest, Placed(ListOf(a));
            && ValidForest(f) && ValidEntry(f, es[i]) && ValidEntry(f, es[j]) && ValidEntry(f, es[k])
            && EntryOrder(f, s, es[i], es[j]) == -EntryOrder(f, s, es[j], es[i])
            && (EntryOrder(f, s, es[i], es[j]) <= 0 && EntryOrder(f, s, es[j], es[k]) <= 0 ==>
                  EntryOrder(f, s, es[i], es[k]) <= 0)
  {
    hide EntriesFor, Nodes, PlaceUpTo, EntryOrder, KeysOf, Dedup;
    PlaceKeepsForest(a, |a.children|, NO_CLUSTER, []);
    var f, es := Place(a, NO_CLUSTER, []).forest, Placed(ListOf(a));
    BuiltEntriesAreValid(a, NO_CLUSTER, [], 0, i);
    BuiltEntriesAreValid(a, NO_CLUSTER, [], 0, j);
    BuiltEntriesAreValid(a, NO_CLUSTER, [], 0, k);
    EntryOrderIsTotalPreorder(f, s, es[i], es[j], es[k]);
  }
}
