/** Where parser_parse_opt sends what getopt returns. */
module ArgpDispatch {
  import opened ArgpOptions
  import opened FirstSeen
  import opened ParserTables
  import opened ArgpConvert
  import opened HelpShadowing
  import opened ArgpHelp
  import opened Wrappers

  /** The group called, by its index, and the key it is called with. */
  datatype Target = NoTarget | To(group: int, key: int)

  // ---------------------------------------------------------------------
  // The source's search

  /** The offset strchr finds, or the length of the string. */
  function IndexOf(s: seq<Byte>, c: Byte): (i: nat)
    ensures i <= |s|
    ensures i < |s| ==> s[i] == c
    ensures forall j :: 0 <= j < i ==> s[j] != c
  {
    if s == [] || s[0] == c then 0 else 1 + IndexOf(s[1..], c)
  }

  /** The first group whose short options end after the offset. */
  function GroupAt(groups: seq<Group>, index: nat): (g: nat)
    ensures g <= |groups|
    ensures g < |groups| ==> groups[g].shortEnd > index
    ensures forall j :: 0 <= j < g ==> groups[j].shortEnd <= index
  {
    if groups == [] || groups[0].shortEnd > index then 0 else 1 + GroupAt(groups[1..], index)
  }

  /** The low bits of a getopt value, their sign preserved. */
  function UserKey(opt: int): int {
    var low := opt % USER_RANGE;
    if low >= USER_RANGE / 2 then low - USER_RANGE else low
  }

  /** The target parser_parse_opt works out. */
  function Dispatch(t: Tables, opt: int): Target {
    if opt / USER_RANGE != 0 then To(opt / USER_RANGE - 1, UserKey(opt))
    else
      var index := IndexOf(t.shorts, opt % 256);
      if index == |t.shorts| then NoTarget
      else
        var g := GroupAt(t.groups, index);
        if g == |t.groups| then NoTarget else To(g, opt)
  }

  /** parser_parse_opt, up to the call of the parser. */
  method ParserParseOpt(parser: Converter, egroup: nat, opt: int) returns (target: Target)
    requires parser.Valid() && egroup <= parser.groups.Length
    requires 0 !in parser.shortOpts[..parser.shortEnd]
    ensures target == Dispatch(parser.Filled(egroup), opt)
  {
    var groupKey := opt / USER_RANGE;
    if groupKey == 0 {
      var c := opt % 256;
      ghost var shorts, groups := parser.shortOpts[..parser.shortEnd], parser.groups[..egroup];
      var index := 0;
      while parser.shortOpts[index] != 0 && parser.shortOpts[index] != c
        invariant 0 <= index <= parser.shortEnd
        invariant forall j :: 0 <= j < index ==> shorts[j] != c
        decreases parser.shortEnd - index
      {
        assert index == parser.shortEnd || shorts[index] == parser.shortOpts[index];
        index := index + 1;
      }
      assert index < parser.shortEnd ==> shorts[index] == parser.shortOpts[index];
      assert index == IndexOf(shorts, c);
      if parser.shortOpts[index] == c && c != 0 {
        var g := 0;
        while g < egroup
          invariant 0 <= g <= egroup
          invariant forall j :: 0 <= j < g ==> groups[j].shortEnd <= index
        {
          if parser.groups[g].shortEnd > index {
            assert groups[g].shortEnd > index;
            return To(g, opt);
          }
          assert groups[g] == parser.groups[g];
          g := g + 1;
        }
      }
      return NoTarget;
    }
    return To(groupKey - 1, UserKey(opt));
  }

  // ---------------------------------------------------------------------
  // Short options

  /** Option `i` of a table gives getopt a short option. */
  predicate ParsesShort(opts: seq<Opt>, i: nat)
    requires i < |opts|
  {
    IsShort(opts[i]) && !Real(opts, i).docOnly
  }

  predicate ParserKey(opts: seq<Opt>, k: Byte) {
    exists i :: 0 <= i < |opts| && ParsesShort(opts, i) && opts[i].key == k
  }

  /** The first argp of the list that gives getopt the short option. */
  function FirstParser(nodes: seq<Argp>, k: Byte): (p: nat)
    ensures p <= |nodes|
    ensures p < |nodes| ==> ParserKey(Table(nodes[p]), k)
    ensures forall q :: 0 <= q < p ==> !ParserKey(Table(nodes[q]), k)
  {
    if nodes == [] || ParserKey(Table(nodes[0]), k) then 0 else 1 + FirstParser(nodes[1..], k)
  }

  lemma TextHoldsKey(opts: seq<Opt>, k: Byte)
    requires k != COLON
    ensures k in ShortText(opts) <==> ParserKey(opts, k)
  {
    InFlatten(ShortSpecs(opts), k);
    forall i | 0 <= i < |opts|
      ensures k in ShortSpecs(opts)[i] <==> ParsesShort(opts, i) && opts[i].key == k
    {
    }
  }

  /** The first occurrence of a key lies in the part of its first declarer. */
  lemma KeyInFirstPart(nodes: seq<Argp>, k: Byte)
    requires k != COLON
    ensures var p := FirstParser(nodes, k);
            var index := IndexOf(Flatten(ShortTexts(nodes)), k);
            && (p == |nodes| ==> index == |Flatten(ShortTexts(nodes))|)
            && (p < |nodes| ==> |Flatten(ShortTexts(nodes[..p]))| <= index < |Flatten(ShortTexts(nodes[..p + 1]))|
                                && index < |Flatten(ShortTexts(nodes))|)
  {
    hide Flatten, FirstParser, IndexOf, ShortText, ParserKey;
    var texts := ShortTexts(nodes);
    var p := FirstParser(nodes, k);
    var index := IndexOf(Flatten(texts), k);
    InFlatten(texts, k);
    forall q | 0 <= q < |nodes| ensures k in texts[q] <==> ParserKey(Table(nodes[q]), k) {
      TextHoldsKey(Table(nodes[q]), k);
    }
    if p < |nodes| {
      FirstInPart(texts, p, k, index);
      assert texts[..p] == ShortTexts(nodes[..p]) && texts[..p + 1] == ShortTexts(nodes[..p + 1]);
    }
  }

  lemma ShortTextsGrow(nodes: seq<Argp>, i: nat, j: nat)
    requires i <= j <= |nodes|
    ensures |Flatten(ShortTexts(nodes[..i]))| <= |Flatten(ShortTexts(nodes[..j]))|
  {
    assert nodes[..j] == nodes[..i] + nodes[i..j];
    ShortTextsAppend(nodes[..i], nodes[i..j]);
  }

  /** With the groups laid out over the string, an offset inside the part of
      `nodes[p]` finds the group of `nodes[p]`. */
  lemma OffsetFindsGroup(groups: seq<Group>, nodes: seq<Argp>, before: nat, p: nat, index: nat)
    requires GroupsFit(groups, nodes, 0, before) && p < |nodes| && IsGroup(nodes[p])
    requires before + |Flatten(ShortTexts(nodes[..p]))| <= index < before + |Flatten(ShortTexts(nodes[..p + 1]))|
    ensures GroupAt(groups, index) < |groups| && groups[GroupAt(groups, index)].node == p
  {
    var g := CountGroups(nodes[..p]);
    assert HasGroup(groups, nodes, 0, p);
    assert GroupFits(groups[g], nodes, 0, before);
    forall j | 0 <= j < |groups| && groups[j].shortEnd > index ensures groups[j].node >= p {
      assert GroupFits(groups[j], nodes, 0, before);
      if groups[j].node < p {
        ShortTextsGrow(nodes, groups[j].node + 1, p);
      }
    }
    var f := GroupAt(groups, index);
    assert f <= g;
    if f < g {
      GroupsAscend(groups, nodes, before, f, g);
    }
  }

  /** Later groups stand for later argps. */
  lemma GroupsAscend(groups: seq<Group>, nodes: seq<Argp>, before: nat, i: nat, j: nat)
    requires GroupsFit(groups, nodes, 0, before) && i < j < |groups|
    ensures groups[i].node < groups[j].node
  {
    var p, q := groups[i].node, groups[j].node;
    assert GroupFits(groups[i], nodes, 0, before) && GroupFits(groups[j], nodes, 0, before);
    GroupNumber(groups, nodes, before, i);
    GroupNumber(groups, nodes, before, j);
    if q <= p {
      CountGroupsMonotone(nodes, q, p);
    }
  }

  lemma CountGroupsMonotone(nodes: seq<Argp>, i: nat, j: nat)
    requires i <= j <= |nodes|
    ensures CountGroups(nodes[..i]) <= CountGroups(nodes[..j])
  {
    assert nodes[..j] == nodes[..i] + nodes[i..j];
    CountGroupsAppend(nodes[..i], nodes[i..j]);
  }

  /** A group's index is the number of groups before its argp. */
  lemma GroupNumber(groups: seq<Group>, nodes: seq<Argp>, before: nat, i: nat)
    requires GroupsFit(groups, nodes, 0, before) && i < |groups|
    ensures CountGroups(nodes[..groups[i].node]) == i
  {
    var p := NthGroup(nodes, i);
    assert HasGroup(groups, nodes, 0, p);
  }

  lemma {:induction false} NthGroup(nodes: seq<Argp>, i: nat) returns (p: nat)
    requires i < CountGroups(nodes)
    ensures p < |nodes| && IsGroup(nodes[p]) && CountGroups(nodes[..p]) == i
    decreases |nodes|
  {
    var n := |nodes| - 1;
    if i < CountGroups(nodes[..n]) {
      p := NthGroup(nodes[..n], i);
      assert nodes[..n][..p] == nodes[..p];
    } else {
      p := n;
    }
  }

  /** For every tree, a short option goes to the first argp in preorder that
      gives it to getopt, and to no one if there is none.  ':' and, when it
      leads the string, '-' are not looked up among the options. */
  lemma ShortGoesToFirstParser(a: Argp, inOrder: bool, k: Byte)
    requires 0 < k < 256 && k != COLON && !(inOrder && k == DASH)
    ensures var t := TablesOf(a, inOrder);
            var p := FirstParser(Nodes(a), k);
            var target := Dispatch(t, k);
            if p == |Nodes(a)| then target == NoTarget
            else target.To? && 0 <= target.group < |t.groups| && t.groups[target.group].node == p && target.key == k
  {
    hide Flatten, ShortTexts, CountGroups, Nodes, TablesOf, IndexOf, GroupAt, FirstParser, Dispatch, GroupsFit;
    DispatchShort(TablesOf(a, inOrder), k);
    var t, nodes := TablesOf(a, inOrder), Nodes(a);
    var start := StartTables(inOrder).shorts;
    var p := FirstParser(nodes, k);
    TablesFollowTree(a, inOrder);
    KeyInFirstPart(nodes, k);
    IndexAfter(start, Flatten(ShortTexts(nodes)), k);
    if p < |nodes| {
      OffsetFindsGroup(t.groups, nodes, |start|, p, IndexOf(t.shorts, k));
    }
  }

  lemma DispatchShort(t: Tables, k: Byte)
    requires 0 < k < 256
    ensures Dispatch(t, k) == var g := GroupAt(t.groups, IndexOf(t.shorts, k));
                              if IndexOf(t.shorts, k) == |t.shorts| || g == |t.groups| then NoTarget else To(g, k)
  {
    SmallKey(k);
    hide GroupAt, IndexOf, UserKey;
  }

  lemma SmallKey(k: int)
    requires 0 < k < 256
    ensures k / USER_RANGE == 0 && k % 256 == k
  {
  }

  /** A value without a group number is looked up by its lowest byte, as
      strchr does, and passed on whole. */
  lemma LowByteDecides(t: Tables, opt: int)
    requires 0 <= opt < 0x100_0000
    ensures match Dispatch(t, opt % 256)
            case NoTarget => Dispatch(t, opt) == NoTarget
            case To(g, _) => Dispatch(t, opt) == To(g, opt)
  {
    hide IndexOf, GroupAt, UserKey;
    assert opt / USER_RANGE == 0 && opt % 256 / USER_RANGE == 0 && opt % 256 % 256 == opt % 256;
  }

  lemma IndexAfter(start: seq<Byte>, s: seq<Byte>, c: Byte)
    requires c !in start
    ensures IndexOf(start + s, c) == |start| + IndexOf(s, c)
  {
    var i := IndexOf(s, c);
    assert forall j :: 0 <= j < |start| + i ==> (start + s)[j] != c;
    assert i < |s| ==> (start + s)[|start| + i] == c;
  }

  /** When '-' leads the string every '-' goes to the first group. */
  lemma DashGoesToFirstGroup(a: Argp)
    ensures var t := TablesOf(a, true);
            Dispatch(t, DASH) == if |t.groups| == 0 then NoTarget else To(0, DASH)
  {
    hide Flatten, ShortTexts, CountGroups, Nodes, TablesOf;
    var t := TablesOf(a, true);
    TablesFollowTree(a, true);
    assert t.shorts[0] == DASH;
    if |t.groups| > 0 {
      assert GroupFits(t.groups[0], Nodes(a), 0, 1);
    }
  }

  /** The string getopt gets has no NUL inside. */
  lemma ShortsHaveNoNul(a: Argp, inOrder: bool)
    ensures 0 !in TablesOf(a, inOrder).shorts
  {
    hide Nodes, TablesOf, ShortText, Flatten;
    TablesFollowTree(a, inOrder);
    InFlatten(ShortTexts(Nodes(a)), 0);
    forall p | 0 <= p < |Nodes(a)| ensures 0 !in ShortTexts(Nodes(a))[p] {
      TextHasNoNul(Table(Nodes(a)[p]));
    }
  }

  lemma TextHasNoNul(opts: seq<Opt>)
    ensures 0 !in ShortText(opts)
  {
    InFlatten(ShortSpecs(opts), 0);
    hide Flatten;
  }

  // ---------------------------------------------------------------------
  // Help and parser

  /** An alias of a documentation entry that has a short key. */
  predicate DocAliasShort(opts: seq<Opt>, i: nat)
    requires i < |opts|
  {
    IsShort(opts[i]) && Real(opts, i).docOnly
  }

  lemma {:induction false} ShortKeyAt(opts: seq<Opt>, k: Byte)
    ensures k in ShortKeys(opts) <==> exists i :: 0 <= i < |opts| && IsShort(opts[i]) && opts[i].key == k
  {
    if opts != [] {
      ShortKeyAt(opts[1..], k);
      assert forall i :: 0 < i < |opts| ==> opts[i] == opts[1..][i - 1];
      if i :| 0 <= i < |opts| && IsShort(opts[i]) && opts[i].key == k {
        assert i > 0 ==> opts[1..][i - 1].key == k;
      }
    }
  }

  /** Exactly when help and parser agree on a declared key: when the argp that
      declares it first in the help list also gives it to getopt. */
  lemma HelpAndParserAgree(a: Argp, inOrder: bool, k: Byte)
    requires 0 < k < 256 && k != COLON && !(inOrder && k == DASH)
    requires FirstDeclarer(Nodes(a), k) < |Nodes(a)|
    ensures var t := TablesOf(a, inOrder);
            var target := Dispatch(t, k);
            var p := FirstDeclarer(Nodes(a), k);
            (target.To? && t.groups[target.group].node == p) <==> ParserKey(Table(Nodes(a)[p]), k)
  {
    ShortGoesToFirstParser(a, inOrder, k);
    forall q | 0 <= q < |Nodes(a)| && ParserKey(Table(Nodes(a)[q]), k) ensures k in ShortKeys(Table(Nodes(a)[q])) {
      ShortKeyAt(Table(Nodes(a)[q]), k);
    }
  }

  /** In a tree where no alias of a documentation entry has a short key, the
      argp whose help entry keeps a key is the one the parser sends it to. */
  lemma HelpEntryIsDispatched(a: Argp, inOrder: bool, k: Byte, e: nat)
    requires 0 < k < 256 && k != COLON && !(inOrder && k == DASH)
    requires forall p, i :: 0 <= p < |Nodes(a)| && 0 <= i < |Table(Nodes(a)[p])| ==>
               !DocAliasShort(Table(Nodes(a)[p]), i)
    requires e < |ListOf(a)| && Keeps(ListOf(a), e, k)
    ensures var t := TablesOf(a, inOrder);
            var target := Dispatch(t, k);
            target.To? && target.key == k && 0 <= target.group < |t.groups|
            && t.groups[target.group].node == ListOf(a)[e].node == FirstDeclarer(Nodes(a), k)
  {
    HelpKeepsAtFirstDeclarer(a, k);
    KeeperDeclares(a, e, k);
    var p := FirstDeclarer(Nodes(a), k);
    var opts := Table(Nodes(a)[p]);
    ShortKeyAt(opts, k);
    var i :| 0 <= i < |opts| && IsShort(opts[i]) && opts[i].key == k;
    assert !DocAliasShort(opts, i);
    assert ParsesShort(opts, i);
    HelpAndParserAgree(a, inOrder, k);
    ShortGoesToFirstParser(a, inOrder, k);
  }

  lemma KeeperDeclares(a: Argp, e: nat, k: Byte)
    requires e < |ListOf(a)| && Keeps(ListOf(a), e, k)
    ensures FirstDeclarer(Nodes(a), k) < |Nodes(a)|
  {
    KeepsMeansFirst(ListOf(a), e, k);
    KeysOfSnoc(ListOf(a), e);
    HelpShowsUnshadowed(a, e);
    ShortKeysOfAll(Nodes(a), k);
  }

  /** A tree on which they disagree: the root documents a form whose alias has
      the short key x, its only child has an option -x. */
  function DisagreeingTree(): Argp {
    var entry := Opt(Some([97]), 0, false, false, false, false, true, false, 0);
    var alias := Opt(None, 120, false, false, false, true, false, false, 0);
    var option := Opt(None, 120, false, false, false, false, false, false, 0);
    Argp(Some([entry, alias]), true, [Child(Argp(Some([option]), true, []), false, 0)])
  }

  lemma DisagreeingDeclarers()
    ensures var nodes := Nodes(DisagreeingTree());
            |nodes| == 2 && FirstDeclarer(nodes, 120) == 0 && FirstParser(nodes, 120) == 1
  {
    var a := DisagreeingTree();
    var entry, alias, child := a.options.value[0], a.options.value[1], a.children[0].argp;
    assert Nodes(child) == [child];
    assert NodesUpTo(a, 0) == [a];
    assert Nodes(a) == NodesUpTo(a, 1) == [a, child];
    assert ShortKeys([alias]) == [120];
    assert [entry, alias][1..] == [alias];
    assert 120 in ShortKeys(Table(a));
    assert Real(Table(a), 1) == Real(Table(a), 0) == entry;
    assert !ParserKey(Table(a), 120);
    assert ParsesShort(Table(child), 0);
    assert ParserKey(Table(child), 120);
  }

  /** There the help entry of the root keeps the key, and the parser sends it
      to the child. */
  lemma DocAliasCounterexample(inOrder: bool)
    ensures var a := DisagreeingTree();
            var t := TablesOf(a, inOrder);
            var target := Dispatch(t, 120);
            && (exists e :: 0 <= e < |ListOf(a)| && Keeps(ListOf(a), e, 120) && ListOf(a)[e].node == 0)
            && target.To? && 0 <= target.group < |t.groups| && t.groups[target.group].node == 1
  {
    hide DisagreeingTree, Keeps, ListOf, FirstDeclarer, FirstParser, Dispatch, TablesOf, Nodes;
    DisagreeingDeclarers();
    HelpKeepsAtFirstDeclarer(DisagreeingTree(), 120);
    ShortGoesToFirstParser(DisagreeingTree(), inOrder, 120);
  }
}
