/** The tables argp builds for getopt, as a function of the tree of argps. */
module ParserTables {
  import opened ArgpOptions
  import opened FirstSeen
  import opened Wrappers

  /** The NULL group pointer. */
  const NO_GROUP := -1

  const COLON := ':' as int
  const DASH := '-' as int

  // getopt value encoding
  const USER_RANGE := 0x100_0000
  const INT_RANGE := 0x1_0000_0000

  datatype HasArg = NoArgument | RequiredArgument | OptionalArgument

  /** struct option; the terminator has no name. */
  datatype LongOption = LongOption(name: Option<CStr>, hasArg: HasArg, val: int)

  /** struct group, as convert_options leaves it.  `node` is the preorder
      position of the argp pointer, `childStart` where its child_inputs begin. */
  datatype Group = Group(argp: Argp, node: nat, shortEnd: nat, argsProcessed: nat, parent: int, parentIndex: nat,
                         childStart: nat)

  /** The filled part of every table. */
  datatype Tables = Tables(groups: seq<Group>, shorts: seq<Byte>, longs: seq<LongOption>, childEnd: nat)

  /** An argp that gets a group of its own. */
  predicate IsGroup(a: Argp) {
    a.options.Some? || a.hasParser
  }

  /** The option `real` points to when option `i` is converted. */
  function Real(opts: seq<Opt>, i: nat): Opt
    requires i < |opts|
  {
    if i == 0 || !opts[i].alias then opts[i] else Real(opts, i - 1)
  }

  /** What one option adds to getopt's short option string. */
  function ShortSpec(o: Opt, main: Opt): seq<Byte> {
    if main.docOnly || !IsShort(o) then []
    else if !main.hasArg then [o.key]
    else if !main.argOptional then [o.key, COLON]
    else [o.key, COLON, COLON]
  }

  /** A 32-bit signed value. */
  function Wrap32(v: int): int {
    var low := v % INT_RANGE;
    if low >= INT_RANGE / 2 then low - INT_RANGE else low
  }

  /** The user key in the low bits, the group number plus one above it. */
  function Encode(key: int, group: nat): int {
    Wrap32(key % USER_RANGE + (group + 1) * USER_RANGE)
  }

  function LongFor(o: Opt, main: Opt, group: nat): LongOption {
    LongOption(o.name,
               if !main.hasArg then NoArgument else if main.argOptional then OptionalArgument else RequiredArgument,
               Encode(if o.key != 0 then o.key else main.key, group))
  }

  predicate HasName(longs: seq<LongOption>, name: Option<CStr>) {
    exists i :: 0 <= i < |longs| && longs[i].name == name
  }

  function AddLong(longs: seq<LongOption>, o: Opt, main: Opt, group: nat): seq<LongOption> {
    if main.docOnly || o.name.None? || HasName(longs, o.name) then longs
    else longs + [LongFor(o, main, group)]
  }

  /** The two option tables after the first `i` options of a table. */
  function OptionsUpTo(opts: seq<Opt>, i: nat, t: Tables): Tables
    requires i <= |opts|
  {
    if i == 0 then t
    else
      AddOption(OptionsUpTo(opts, i - 1, t), opts[i - 1], Real(opts, i - 1))
  }

  function AddOption(t: Tables, o: Opt, main: Opt): Tables {
    t.(shorts := t.shorts + ShortSpec(o, main), longs := AddLong(t.longs, o, main, |t.groups|))
  }

  /** convert_options: the tables after one argp, its children left out. */
  function ConvertNode(a: Argp, parent: int, parentIndex: nat, node: nat, t: Tables): Tables {
    if !IsGroup(a) then t
    else
      var done := OptionsUpTo(Table(a), |Table(a)|, t);
      done.(groups := t.groups + [Group(a, node, |done.shorts|, 0, parent, parentIndex, t.childEnd)],
            childEnd := t.childEnd + |a.children|)
  }

  /** The parent an argp's children are given. */
  function ParentFor(a: Argp, t: Tables): int {
    if IsGroup(a) then |t.groups| else NO_GROUP
  }

  /** convert_options: the tables after an argp and all below it. */
  function Convert(a: Argp, parent: int, parentIndex: nat, node: nat, t: Tables): Tables
    decreases a, |a.children| + 1
  {
    ConvertUpTo(a, |a.children|, parent, parentIndex, node, t)
  }

  function ConvertUpTo(a: Argp, i: nat, parent: int, parentIndex: nat, node: nat, t: Tables): Tables
    requires i <= |a.children|
    decreases a, i
  {
    if i == 0 then ConvertNode(a, parent, parentIndex, node, t)
    else
      Convert(a.children[i - 1].argp, ParentFor(a, t), i - 1, node + |NodesUpTo(a, i - 1)|,
              ConvertUpTo(a, i - 1, parent, parentIndex, node, t))
  }

  // ---------------------------------------------------------------------
  // The tables in terms of the preorder list of argps

  /** A table's part of the short option string. */
  function ShortText(opts: seq<Opt>): seq<Byte> {
    Flatten(ShortSpecs(opts))
  }

  function ShortSpecs(opts: seq<Opt>): seq<seq<Byte>> {
    seq(|opts|, i requires 0 <= i < |opts| => ShortSpec(opts[i], Real(opts, i)))
  }

  function ShortTexts(nodes: seq<Argp>): seq<seq<Byte>> {
    seq(|nodes|, i requires 0 <= i < |nodes| => ShortText(Table(nodes[i])))
  }

  function CountGroups(nodes: seq<Argp>): nat {
    if nodes == [] then 0 else CountGroups(nodes[..|nodes| - 1]) + if IsGroup(nodes[|nodes| - 1]) then 1 else 0
  }

  lemma {:induction false} CountGroupsAppend(a: seq<Argp>, b: seq<Argp>)
    ensures CountGroups(a + b) == CountGroups(a) + CountGroups(b)
    decreases |b|
  {
    if b == [] {
      assert a + b == a;
    } else {
      assert (a + b)[..|a + b| - 1] == a + b[..|b| - 1];
      CountGroupsAppend(a, b[..|b| - 1]);
    }
  }

  lemma {:induction false} OptionsUpToShorts(opts: seq<Opt>, i: nat, t: Tables)
    requires i <= |opts|
    ensures OptionsUpTo(opts, i, t).shorts == t.shorts + Flatten(ShortSpecs(opts)[..i])
    ensures OptionsUpTo(opts, i, t).groups == t.groups && OptionsUpTo(opts, i, t).childEnd == t.childEnd
  {
    if i == 0 {
      assert Flatten(ShortSpecs(opts)[..0]) == [];
    } else {
      OptionsUpToShorts(opts, i - 1, t);
      FlattenSnoc(ShortSpecs(opts), i - 1);
      Assoc(t.shorts, Flatten(ShortSpecs(opts)[..i - 1]), ShortSpec(opts[i - 1], Real(opts, i - 1)));
    }
  }

  lemma ConvertNodeShorts(a: Argp, parent: int, parentIndex: nat, node: nat, t: Tables)
    ensures ConvertNode(a, parent, parentIndex, node, t).shorts == t.shorts + ShortText(Table(a))
  {
    OptionsUpToShorts(Table(a), |Table(a)|, t);
    assert ShortSpecs(Table(a))[..|Table(a)|] == ShortSpecs(Table(a));
    if !IsGroup(a) {
      assert ShortSpecs(Table(a)) == [] && t.shorts + [] == t.shorts;
    }
  }

  lemma ShortTextsAppend(a: seq<Argp>, b: seq<Argp>)
    ensures Flatten(ShortTexts(a + b)) == Flatten(ShortTexts(a)) + Flatten(ShortTexts(b))
  {
    assert ShortTexts(a + b) == ShortTexts(a) + ShortTexts(b);
    FlattenAppend(ShortTexts(a), ShortTexts(b));
  }

  /** The group numbered as `nodes[p]`'s, given what stood before. */
  ghost predicate GroupFits(g: Group, nodes: seq<Argp>, node: nat, before: nat) {
    && node <= g.node < node + |nodes|
    && g.argp == nodes[g.node - node] && IsGroup(g.argp) && g.argsProcessed == 0
    && g.shortEnd == before + |Flatten(ShortTexts(nodes[..g.node - node + 1]))|
  }

  /** One group for every argp that is one, in preorder, each with the point
      in the short string where its options end. */
  ghost predicate GroupsFit(groups: seq<Group>, nodes: seq<Argp>, node: nat, before: nat) {
    && |groups| == CountGroups(nodes)
    && (forall j :: 0 <= j < |groups| ==> GroupFits(groups[j], nodes, node, before))
    && (forall p :: 0 <= p < |nodes| && IsGroup(nodes[p]) ==> HasGroup(groups, nodes, node, p))
  }

  ghost predicate HasGroup(groups: seq<Group>, nodes: seq<Argp>, node: nat, p: nat)
    requires p < |nodes|
  {
    CountGroups(nodes[..p]) < |groups| && groups[CountGroups(nodes[..p])].node == node + p
  }

  lemma GroupFitsMore(g: Group, n1: seq<Argp>, n2: seq<Argp>, node: nat, before: nat)
    requires GroupFits(g, n1, node, before)
    ensures GroupFits(g, n1 + n2, node, before)
  {
    var k := g.node - node;
    assert (n1 + n2)[..k + 1] == n1[..k + 1] && (n1 + n2)[k] == n1[k];
  }

  lemma GroupFitsAfter(g: Group, n1: seq<Argp>, n2: seq<Argp>, node: nat, before: nat)
    requires GroupFits(g, n2, node + |n1|, before + |Flatten(ShortTexts(n1))|)
    ensures GroupFits(g, n1 + n2, node, before)
  {
    var m := g.node - (node + |n1|) + 1;
    assert (n1 + n2)[..|n1| + m] == n1 + n2[..m] && (n1 + n2)[g.node - node] == n2[m - 1];
    hide Flatten, ShortTexts;
    ShortTextsAppend(n1, n2[..m]);
  }

  lemma HasGroupAppend(g1: seq<Group>, n1: seq<Argp>, g2: seq<Group>, n2: seq<Argp>, node: nat, p: nat)
    requires p < |n1 + n2| && |g1| == CountGroups(n1)
    requires p < |n1| ==> HasGroup(g1, n1, node, p)
    requires p >= |n1| ==> HasGroup(g2, n2, node + |n1|, p - |n1|)
    ensures HasGroup(g1 + g2, n1 + n2, node, p)
  {
    hide CountGroups;
    if p < |n1| {
      assert (n1 + n2)[..p] == n1[..p];
    } else {
      assert (n1 + n2)[..p] == n1 + n2[..p - |n1|];
      CountGroupsAppend(n1, n2[..p - |n1|]);
    }
  }

  lemma GroupsFitAppend(g1: seq<Group>, n1: seq<Argp>, g2: seq<Group>, n2: seq<Argp>, node: nat, before: nat)
    requires GroupsFit(g1, n1, node, before)
    requires GroupsFit(g2, n2, node + |n1|, before + |Flatten(ShortTexts(n1))|)
    ensures GroupsFit(g1 + g2, n1 + n2, node, before)
  {
    hide Flatten, ShortTexts, CountGroups, GroupFits, HasGroup;
    var g, n := g1 + g2, n1 + n2;
    CountGroupsAppend(n1, n2);
    forall j | 0 <= j < |g| ensures GroupFits(g[j], n, node, before) {
      if j < |g1| {
        GroupFitsMore(g1[j], n1, n2, node, before);
      } else {
        GroupFitsAfter(g2[j - |g1|], n1, n2, node, before);
      }
    }
    forall p | 0 <= p < |n| && IsGroup(n[p]) ensures HasGroup(g, n, node, p) {
      assert if p < |n1| then n[p] == n1[p] else n[p] == n2[p - |n1|];
      HasGroupAppend(g1, n1, g2, n2, node, p);
    }
  }

  lemma ConvertNodeGroups(a: Argp, parent: int, parentIndex: nat, node: nat, t: Tables)
    ensures t.groups <= ConvertNode(a, parent, parentIndex, node, t).groups
    ensures GroupsFit(ConvertNode(a, parent, parentIndex, node, t).groups[|t.groups|..], [a], node, |t.shorts|)
  {
    ConvertNodeShorts(a, parent, parentIndex, node, t);
    var gs := ConvertNode(a, parent, parentIndex, node, t).groups[|t.groups|..];
    assert [a][..0] == [] && [a][..1] == [a] && CountGroups([]) == 0;
    assert CountGroups([a]) == if IsGroup(a) then 1 else 0;
    assert Flatten(ShortTexts([a])) == ShortText(Table(a)) by {
      assert ShortTexts([a]) == [ShortText(Table(a))] && ShortText(Table(a)) + [] == ShortText(Table(a));
      assert [ShortText(Table(a))][1..] == [];
    }
    if IsGroup(a) {
      assert gs == [Group(a, node, |t.shorts + ShortText(Table(a))|, 0, parent, parentIndex, t.childEnd)];
    } else {
      assert gs == [];
    }
  }

  /** `r` adds to the string and the groups of `t` exactly what the list of
      argps calls for. */
  ghost predicate Adds(r: Tables, t: Tables, nodes: seq<Argp>, node: nat) {
    && r.shorts == t.shorts + Flatten(ShortTexts(nodes))
    && t.groups <= r.groups
    && GroupsFit(r.groups[|t.groups|..], nodes, node, |t.shorts|)
  }

  lemma AddsCompose(t: Tables, b: Tables, r: Tables, n1: seq<Argp>, n2: seq<Argp>, node: nat)
    requires Adds(b, t, n1, node) && Adds(r, b, n2, node + |n1|)
    ensures Adds(r, t, n1 + n2, node)
  {
    hide Flatten, ShortTexts, GroupsFit;
    ShortTextsAppend(n1, n2);
    Assoc(t.shorts, Flatten(ShortTexts(n1)), Flatten(ShortTexts(n2)));
    assert r.groups[|t.groups|..] == b.groups[|t.groups|..] + r.groups[|b.groups|..];
    GroupsFitAppend(b.groups[|t.groups|..], n1, r.groups[|b.groups|..], n2, node, |t.shorts|);
  }

  lemma {:induction false} ConvertAdds(a: Argp, i: nat, parent: int, parentIndex: nat, node: nat, t: Tables)
    requires i <= |a.children|
    ensures Adds(ConvertUpTo(a, i, parent, parentIndex, node, t), t, NodesUpTo(a, i), node)
    decreases a, i
  {
    if i == 0 {
      ConvertNodeShorts(a, parent, parentIndex, node, t);
      ConvertNodeGroups(a, parent, parentIndex, node, t);
      assert Flatten(ShortTexts([a])) == ShortText(Table(a)) by {
        assert ShortTexts([a]) == [ShortText(Table(a))] && ShortText(Table(a)) + [] == ShortText(Table(a));
        assert [ShortText(Table(a))][1..] == [];
      }
    } else {
      var child := a.children[i - 1].argp;
      var b := ConvertUpTo(a, i - 1, parent, parentIndex, node, t);
      var n1 := NodesUpTo(a, i - 1);
      var r := Convert(child, ParentFor(a, t), i - 1, node + |n1|, b);
      assert r == ConvertUpTo(child, |child.children|, ParentFor(a, t), i - 1, node + |n1|, b);
      hide Adds;
      ConvertAdds(a, i - 1, parent, parentIndex, node, t);
      ConvertAdds(child, |child.children|, ParentFor(a, t), i - 1, node + |n1|, b);
      AddsCompose(t, b, r, n1, Nodes(child), node);
    }
  }

  // ---------------------------------------------------------------------
  // Parents and child input slots

  /** The parent pointer of group `j`: an earlier group, whose child at
      parentIndex is the argp of the group. */
  ghost predicate Linked(groups: seq<Group>, j: nat)
    requires j < |groups|
  {
    groups[j].parent == NO_GROUP || IsChild(groups, groups[j].argp, groups[j].parent, groups[j].parentIndex, j)
  }

  ghost predicate IsChild(groups: seq<Group>, a: Argp, parent: int, index: nat, before: nat)
    requires before <= |groups|
  {
    && 0 <= parent < before
    && index < |groups[parent].argp.children|
    && groups[parent].argp.children[index].argp == a
  }

  /** The child input slots of group `j` end before those of any later one
      begin, and before the first free slot. */
  ghost predicate SlotsFit(t: Tables, j: nat)
    requires j < |t.groups|
  {
    && t.groups[j].childStart + |t.groups[j].argp.children| <= t.childEnd
    && forall k :: j < k < |t.groups| ==>
         t.groups[j].childStart + |t.groups[j].argp.children| <= t.groups[k].childStart
  }

  ghost predicate WellLinked(t: Tables) {
    forall j :: 0 <= j < |t.groups| ==> Linked(t.groups, j) && SlotsFit(t, j)
  }

  lemma ConvertNodeLinks(a: Argp, parent: int, parentIndex: nat, node: nat, t: Tables)
    requires WellLinked(t) && (parent == NO_GROUP || IsChild(t.groups, a, parent, parentIndex, |t.groups|))
    ensures var r := ConvertNode(a, parent, parentIndex, node, t);
            WellLinked(r) && t.groups <= r.groups && t.childEnd <= r.childEnd
  {
    OptionsUpToShorts(Table(a), |Table(a)|, t);
    var r := ConvertNode(a, parent, parentIndex, node, t);
    forall j | 0 <= j < |r.groups| ensures Linked(r.groups, j) && SlotsFit(r, j) {
      if j < |t.groups| {
        assert Linked(t.groups, j) && SlotsFit(t, j);
      }
    }
  }

  lemma {:induction false} ConvertLinks(a: Argp, i: nat, parent: int, parentIndex: nat, node: nat, t: Tables)
    requires i <= |a.children|
    requires WellLinked(t) && (parent == NO_GROUP || IsChild(t.groups, a, parent, parentIndex, |t.groups|))
    ensures var r := ConvertUpTo(a, i, parent, parentIndex, node, t);
            WellLinked(r) && t.groups <= r.groups && t.childEnd <= r.childEnd
    ensures IsGroup(a) ==> var gs := ConvertUpTo(a, i, parent, parentIndex, node, t).groups;
              |t.groups| < |gs| && gs[|t.groups|].argp == a && gs[|t.groups|].parent == parent
              && gs[|t.groups|].parentIndex == parentIndex && gs[|t.groups|].node == node
    decreases a, i
  {
    if i == 0 {
      ConvertNodeLinks(a, parent, parentIndex, node, t);
    } else {
      var child := a.children[i - 1].argp;
      var b := ConvertUpTo(a, i - 1, parent, parentIndex, node, t);
      var next := node + |NodesUpTo(a, i - 1)|;
      ConvertLinks(a, i - 1, parent, parentIndex, node, t);
      assert IsGroup(a) ==> IsChild(b.groups, child, |t.groups|, i - 1, |b.groups|);
      ConvertLinks(child, |child.children|, ParentFor(a, t), i - 1, next, b);
      assert Convert(child, ParentFor(a, t), i - 1, next, b)
          == ConvertUpTo(child, |child.children|, ParentFor(a, t), i - 1, next, b);
    }
  }

  /** The tables argp_parse starts from: `-` leads the string when arguments
      are to be taken in order. */
  function StartTables(inOrder: bool): Tables {
    Tables([], if inOrder then [DASH] else [], [], 0)
  }

  /** All tables of a tree. */
  function TablesOf(a: Argp, inOrder: bool): Tables {
    Convert(a, NO_GROUP, 0, 0, StartTables(inOrder))
  }

  /** The string, the groups and their links, for every tree. */
  lemma TablesFollowTree(a: Argp, inOrder: bool)
    ensures TablesOf(a, inOrder).shorts == StartTables(inOrder).shorts + Flatten(ShortTexts(Nodes(a)))
    ensures GroupsFit(TablesOf(a, inOrder).groups, Nodes(a), 0, |StartTables(inOrder).shorts|)
    ensures forall j :: 0 <= j < |TablesOf(a, inOrder).groups| ==>
              Linked(TablesOf(a, inOrder).groups, j) && SlotsFit(TablesOf(a, inOrder), j)
  {
    var t := StartTables(inOrder);
    ConvertAdds(a, |a.children|, NO_GROUP, 0, 0, t);
    ConvertLinks(a, |a.children|, NO_GROUP, 0, 0, t);
    assert TablesOf(a, inOrder).groups[|t.groups|..] == TablesOf(a, inOrder).groups;
  }

  /** An argp of the tree has a group exactly when it has an option table, be
      it empty, or a parser. */
  lemma GroupIff(a: Argp, inOrder: bool, p: nat)
    requires p < |Nodes(a)|
    ensures var groups := TablesOf(a, inOrder).groups;
            (exists j :: 0 <= j < |groups| && groups[j].node == p)
            <==> Nodes(a)[p].options.Some? || Nodes(a)[p].hasParser
  {
    hide TablesOf, Nodes, ShortTexts, Flatten, CountGroups;
    TablesFollowTree(a, inOrder);
    var groups := TablesOf(a, inOrder).groups;
    if IsGroup(Nodes(a)[p]) {
      assert HasGroup(groups, Nodes(a), 0, p);
    }
    forall j | 0 <= j < |groups| ensures IsGroup(Nodes(a)[groups[j].node]) && groups[j].node < |Nodes(a)| {
      assert GroupFits(groups[j], Nodes(a), 0, |StartTables(inOrder).shorts|);
    }
  }

  /** A child that is a group is linked to its parent's group and to its own
      place among the parent's children. */
  lemma ChildGroupLinked(a: Argp, i: nat, parent: int, parentIndex: nat, node: nat, t: Tables)
    requires i < |a.children| && IsGroup(a) && IsGroup(a.children[i].argp)
    requires WellLinked(t) && (parent == NO_GROUP || IsChild(t.groups, a, parent, parentIndex, |t.groups|))
    ensures var b := ConvertUpTo(a, i, parent, parentIndex, node, t);
            var r := ConvertUpTo(a, i + 1, parent, parentIndex, node, t);
            && |b.groups| < |r.groups| && r.groups[|b.groups|].argp == a.children[i].argp
            && r.groups[|b.groups|].parent == |t.groups| && r.groups[|b.groups|].parentIndex == i
            && r.groups[|b.groups|].node == node + |NodesUpTo(a, i)|
  {
    var child := a.children[i].argp;
    var b := ConvertUpTo(a, i, parent, parentIndex, node, t);
    var next := node + |NodesUpTo(a, i)|;
    ConvertLinks(a, i, parent, parentIndex, node, t);
    assert IsChild(b.groups, child, |t.groups|, i, |b.groups|);
    ConvertLinks(child, |child.children|, |t.groups|, i, next, b);
    assert Convert(child, |t.groups|, i, next, b) == ConvertUpTo(child, |child.children|, |t.groups|, i, next, b);
  }
}
