/** Sizing, allocating and filling the tables of a parser. */
module ArgpConvert {
  import opened ArgpOptions
  import opened ParserTables
  import opened Wrappers

  // ---------------------------------------------------------------------
  // Sizes

  function CountOpts(nodes: seq<Argp>): nat {
    if nodes == [] then 0 else CountOpts(nodes[..|nodes| - 1]) + |Table(nodes[|nodes| - 1])|
  }

  lemma {:induction false} CountOptsAppend(a: seq<Argp>, b: seq<Argp>)
    ensures CountOpts(a + b) == CountOpts(a) + CountOpts(b)
    decreases |b|
  {
    if b == [] {
      assert a + b == a;
    } else {
      assert (a + b)[..|a + b| - 1] == a + b[..|b| - 1];
      CountOptsAppend(a, b[..|b| - 1]);
    }
  }

  /** struct parser_sizes */
  class ParserSizes {
    var shortLen: nat
    var longLen: nat
    var numGroups: nat
    var numChildInputs: nat

    /** szs as parser_init sets it up, ARGP_NO_ARGS being clear. */
    constructor ()
      ensures shortLen == 1 && longLen == 0 && numGroups == 0 && numChildInputs == 0
    {
      shortLen, longLen, numGroups, numChildInputs := 1, 0, 0, 0;
    }

    twostate predicate Counted(nodes: seq<Argp>, links: int)
      reads this
    {
      && shortLen == old(shortLen) + 3 * CountOpts(nodes)
      && longLen == old(longLen) + CountOpts(nodes)
      && numGroups == old(numGroups) + CountGroups(nodes)
      && numChildInputs == old(numChildInputs) + links
    }
  }

  lemma CountOne(a: Argp)
    ensures CountOpts([a]) == |Table(a)| && CountGroups([a]) == if IsGroup(a) then 1 else 0
  {
    assert [a][..0] == [];
  }

  lemma CountRoot(a: Argp)
    ensures |NodesUpTo(a, 0)| == 1 && Nodes(a) == NodesUpTo(a, |a.children|)
    ensures CountOpts(NodesUpTo(a, 0)) == |Table(a)| && CountGroups(NodesUpTo(a, 0)) == if IsGroup(a) then 1 else 0
  {
    CountOne(a);
  }

  lemma CountsUpTo(a: Argp, i: nat)
    requires i < |a.children|
    ensures var child := Nodes(a.children[i].argp);
            && |NodesUpTo(a, i + 1)| == |NodesUpTo(a, i)| + |child|
            && CountOpts(NodesUpTo(a, i + 1)) == CountOpts(NodesUpTo(a, i)) + CountOpts(child)
            && CountGroups(NodesUpTo(a, i + 1)) == CountGroups(NodesUpTo(a, i)) + CountGroups(child)
  {
    assert NodesUpTo(a, i + 1) == NodesUpTo(a, i) + Nodes(a.children[i].argp);
    CountOptsAppend(NodesUpTo(a, i), Nodes(a.children[i].argp));
    CountGroupsAppend(NodesUpTo(a, i), Nodes(a.children[i].argp));
  }

  /** calc_sizes */
  method CalcSizes(a: Argp, szs: ParserSizes)
    modifies szs
    ensures szs.Counted(Nodes(a), |Nodes(a)| - 1)
    decreases a
  {
    CountRoot(a);
    hide CountOpts, CountGroups, NodesUpTo, Nodes;
    if a.options.Some? || a.hasParser {
      szs.numGroups := szs.numGroups + 1;
      if a.options.Some? {
        var numOpts := |a.options.value|;
        szs.shortLen := szs.shortLen + numOpts * 3;
        szs.longLen := szs.longLen + numOpts;
      }
    }
    var i := 0;
    while i < |a.children|
      invariant 0 <= i <= |a.children|
      invariant szs.Counted(NodesUpTo(a, i), |NodesUpTo(a, i)| - 1)
    {
      CountsUpTo(a, i);
      CalcSizes(a.children[i].argp, szs);
      szs.numChildInputs := szs.numChildInputs + 1;
      i := i + 1;
    }
  }

  lemma {:induction false} OptionsUpToBounds(opts: seq<Opt>, i: nat, t: Tables)
    requires i <= |opts|
    ensures |t.shorts| <= |OptionsUpTo(opts, i, t).shorts| <= |t.shorts| + 3 * i
    ensures |t.longs| <= |OptionsUpTo(opts, i, t).longs| <= |t.longs| + i
  {
    if i > 0 {
      OptionsUpToBounds(opts, i - 1, t);
    }
  }

  /** What convert_options may use of each table, by the counts of calc_sizes. */
  ghost predicate Within(r: Tables, t: Tables, nodes: seq<Argp>, links: int) {
    && |r.shorts| <= |t.shorts| + 3 * CountOpts(nodes)
    && |r.longs| <= |t.longs| + CountOpts(nodes)
    && |r.groups| == |t.groups| + CountGroups(nodes)
    && r.childEnd <= t.childEnd + links
  }

  lemma WithinBoth(r: Tables, b: Tables, t: Tables, n1: seq<Argp>, n2: seq<Argp>, links1: int, links2: int)
    requires Within(b, t, n1, links1) && Within(r, b, n2, links2)
    ensures Within(r, t, n1 + n2, links1 + links2)
  {
    CountOptsAppend(n1, n2);
    CountGroupsAppend(n1, n2);
    hide CountOpts, CountGroups;
  }

  lemma NodeWithin(a: Argp, parent: int, parentIndex: nat, node: nat, t: Tables)
    ensures Within(ConvertUpTo(a, 0, parent, parentIndex, node, t), t, NodesUpTo(a, 0), |a.children|)
    ensures |NodesUpTo(a, 0)| == 1
  {
    CountOne(a);
    OptionsUpToBounds(Table(a), |Table(a)|, t);
    OptionsUpToShorts(Table(a), |Table(a)|, t);
    hide OptionsUpTo, CountOpts, CountGroups;
  }

  lemma ConvertStep(a: Argp, i: nat, parent: int, parentIndex: nat, node: nat, t: Tables)
    requires 0 < i <= |a.children|
    ensures var child := a.children[i - 1].argp;
            var next := node + |NodesUpTo(a, i - 1)|;
            && NodesUpTo(a, i) == NodesUpTo(a, i - 1) + NodesUpTo(child, |child.children|)
            && ConvertUpTo(a, i, parent, parentIndex, node, t)
                 == ConvertUpTo(child, |child.children|, ParentFor(a, t), i - 1, next,
                                ConvertUpTo(a, i - 1, parent, parentIndex, node, t))
  {
  }

  lemma {:induction false} ConvertWithin(a: Argp, i: nat, parent: int, parentIndex: nat, node: nat, t: Tables)
    requires i <= |a.children|
    ensures Within(ConvertUpTo(a, i, parent, parentIndex, node, t), t, NodesUpTo(a, i),
                   |a.children| + |NodesUpTo(a, i)| - 1 - i)
    decreases a, i
  {
    hide ConvertUpTo, NodesUpTo, Within, ParentFor;
    if i == 0 {
      NodeWithin(a, parent, parentIndex, node, t);
    } else {
      var child := a.children[i - 1].argp;
      var b := ConvertUpTo(a, i - 1, parent, parentIndex, node, t);
      var next := node + |NodesUpTo(a, i - 1)|;
      ConvertStep(a, i, parent, parentIndex, node, t);
      ConvertWithin(a, i - 1, parent, parentIndex, node, t);
      ConvertWithin(child, |child.children|, ParentFor(a, t), i - 1, next, b);
      var n1, n2 := NodesUpTo(a, i - 1), NodesUpTo(child, |child.children|);
      WithinBoth(ConvertUpTo(a, i, parent, parentIndex, node, t), b, t, n1, n2,
                 |a.children| + |n1| - i, |n2| - 1);
    }
  }

  /** For every tree the counts of calc_sizes cover the string with its NUL,
      the long options with their terminator, the groups and the child input
      slots. */
  lemma CountsCoverTables(a: Argp, inOrder: bool)
    ensures var t := TablesOf(a, inOrder);
            && |t.shorts| + 1 <= (1 + 3 * CountOpts(Nodes(a))) + 1
            && |t.longs| + 1 <= CountOpts(Nodes(a)) + 1
            && |t.groups| == CountGroups(Nodes(a))
            && t.childEnd <= |Nodes(a)| - 1
  {
    ConvertWithin(a, |a.children|, NO_GROUP, 0, 0, StartTables(inOrder));
  }

  // ---------------------------------------------------------------------
  // Storage

  /** alignto */
  function AlignTo(n: nat, d: nat): nat
    requires d > 0
  {
    (n + d - 1) / d * d
  }

  lemma AlignToRoundsUp(n: nat, d: nat)
    requires d > 0
    ensures n <= AlignTo(n, d) < n + d && AlignTo(n, d) % d == 0
  {
    var q, r := (n + d - 1) / d, (n + d - 1) % d;
    assert n + d - 1 == q * d + r;
    MultipleOf(q, d);
  }

  lemma MultipleOf(q: nat, d: nat)
    requires d > 0
    ensures (q * d) % d == 0
  {
    var k, r := q * d / d, q * d % d;
    var m := q - k;
    assert q * d == k * d + r;
    assert m * d == r;
    if m > 0 {
      assert m * d == (m - 1) * d + d;
    } else if m < 0 {
      assert m * d == (m + 1) * d - d;
    }
  }

  /** The offsets of the four regions of a parser's storage and its size. */
  datatype Layout = Layout(groups: nat, childInputs: nat, longOpts: nat, shortOpts: nat, size: nat)

  /** parser_init: sizes in bytes and their aligned sums.  The sizes of the C
      types are parameters. */
  function LayOut(shortLen: nat, longLen: nat, numGroups: nat, numChildInputs: nat,
                  groupSize: nat, pointerSize: nat, optionSize: nat, optionAlign: nat): Layout
    requires optionAlign > 0
  {
    var glen := (numGroups + 1) * groupSize;
    var clen := numChildInputs * pointerSize;
    var llen := (longLen + 1) * optionSize;
    var slen := shortLen + 1;
    var gsum := glen;
    var csum := AlignTo(gsum + clen, optionAlign);
    var lsum := csum + llen;
    var ssum := lsum + slen;
    Layout(0, gsum, csum, lsum, ssum)
  }

  /** The regions follow one another without overlap, each large enough for
      what is counted.  The groups come first, the long options are aligned,
      and so are the child inputs if the size of a group is a multiple of
      their alignment. */
  lemma RegionsDisjoint(shortLen: nat, longLen: nat, numGroups: nat, numChildInputs: nat,
                        groupSize: nat, pointerSize: nat, optionSize: nat, optionAlign: nat, pointerAlign: nat)
    requires optionAlign > 0 && pointerAlign > 0
    ensures var l := LayOut(shortLen, longLen, numGroups, numChildInputs,
                            groupSize, pointerSize, optionSize, optionAlign);
            && l.groups == 0
            && (numGroups + 1) * groupSize <= l.childInputs
            && l.childInputs + numChildInputs * pointerSize <= l.longOpts
            && l.longOpts + (longLen + 1) * optionSize <= l.shortOpts
            && l.shortOpts + shortLen + 1 == l.size
            && l.longOpts % optionAlign == 0
            && (groupSize % pointerAlign == 0 ==> l.childInputs % pointerAlign == 0)
  {
    AlignToRoundsUp((numGroups + 1) * groupSize + numChildInputs * pointerSize, optionAlign);
    if groupSize % pointerAlign == 0 {
      MultipleOfMultiple(numGroups + 1, groupSize, pointerAlign);
    }
  }

  lemma MultipleOfMultiple(n: nat, size: nat, d: nat)
    requires d > 0 && size % d == 0
    ensures (n * size) % d == 0
  {
    var q := size / d;
    assert size == q * d;
    assert n * size == n * q * d;
    MultipleOf(n * q, d);
  }

  lemma NoOptionsYet(opts: seq<Opt>, t: Tables)
    ensures OptionsUpTo(opts, 0, t) == t
  {
  }

  lemma NextOption(opts: seq<Opt>, i: nat, t: Tables)
    requires i < |opts|
    ensures OptionsUpTo(opts, i + 1, t) == AddOption(OptionsUpTo(opts, i, t), opts[i], Real(opts, i))
    ensures Real(opts, i) == if !opts[i].alias || i == 0 then opts[i] else Real(opts, i - 1)
  {
    hide AddOption;
  }

  // ---------------------------------------------------------------------
  // Filling

  /** The tables of a struct parser and the cursors of a parser_convert_state. */
  class Converter {
    const groups: array<Group>
    const shortOpts: array<Byte>
    const longOpts: array<LongOption>
    var shortEnd: nat
    var longEnd: nat
    var childInputsEnd: nat

    constructor (shortLen: nat, longLen: nat, numGroups: nat)
      ensures groups.Length == numGroups + 1 && shortOpts.Length == shortLen + 1 && longOpts.Length == longLen + 1
      ensures shortEnd == 0 && longEnd == 0 && childInputsEnd == 0
      ensures fresh(groups) && fresh(shortOpts) && fresh(longOpts)
    {
      var none := Group(Argp(None, false, []), 0, 0, 0, NO_GROUP, 0, 0);
      groups := new Group[numGroups + 1](_ => none);
      shortOpts := new Byte[shortLen + 1];
      longOpts := new LongOption[longLen + 1];
      shortEnd, longEnd, childInputsEnd := 0, 0, 0;
    }

    /** The string and the long options are terminated. */
    ghost predicate Valid()
      reads this, shortOpts, longOpts
    {
      && shortEnd < shortOpts.Length && shortOpts[shortEnd] == 0
      && longEnd < longOpts.Length && longOpts[longEnd].name.None?
      && forall i :: 0 <= i < longEnd ==> longOpts[i].name.Some?
    }

    /** What has been filled in, `group` being the next unused group. */
    ghost function Filled(group: nat): Tables
      requires group <= groups.Length && shortEnd <= shortOpts.Length && longEnd <= longOpts.Length
      reads this, groups, shortOpts, longOpts
    {
      Tables(groups[..group], shortOpts[..shortEnd], longOpts[..longEnd], childInputsEnd)
    }

    /** find_long_option */
    method FindLongOption(name: CStr) returns (offset: int)
      requires Valid()
      ensures offset >= 0 <==> HasName(longOpts[..longEnd], Some(name))
      ensures offset >= 0 ==> offset < longEnd && longOpts[offset].name == Some(name)
    {
      var l := 0;
      while longOpts[l].name.Some?
        invariant 0 <= l <= longEnd
        invariant forall i :: 0 <= i < l ==> longOpts[i].name != Some(name)
        decreases longEnd - l
      {
        if longOpts[l].name.value == name {
          assert longOpts[..longEnd][l].name == Some(name);
          return l;
        }
        l := l + 1;
      }
      return -1;
    }

    /** *short_end++ = c */
    method PutShort(c: Byte)
      requires shortEnd < shortOpts.Length
      modifies this`shortEnd, shortOpts
      ensures shortEnd == old(shortEnd) + 1 && shortOpts[..shortEnd] == old(shortOpts[..shortEnd]) + [c]
    {
      shortOpts[shortEnd] := c;
      shortEnd := shortEnd + 1;
    }

    /** convert_options: an option as a short option. */
    method ConvertShort(o: Opt, main: Opt)
      requires shortEnd + 3 < shortOpts.Length && shortOpts[shortEnd] == 0 && !main.docOnly
      modifies this`shortEnd, shortOpts
      ensures shortEnd < shortOpts.Length && shortOpts[shortEnd] == 0
      ensures shortOpts[..shortEnd] == old(shortOpts[..shortEnd]) + ShortSpec(o, main)
    {
      if IsShort(o) {
        PutShort(o.key);
        if main.hasArg {
          PutShort(COLON);
          if main.argOptional {
            PutShort(COLON);
          }
        }
        shortOpts[shortEnd] := 0;
      }
    }

    /** convert_options: an option as a long option. */
    method ConvertLong(o: Opt, main: Opt, group: nat)
      requires Valid() && longEnd + 1 < longOpts.Length && !main.docOnly
      modifies this`longEnd, longOpts
      ensures Valid()
      ensures longOpts[..longEnd] == AddLong(old(longOpts[..longEnd]), o, main, group)
    {
      if o.name.Some? {
        var found := FindLongOption(o.name.value);
        if found < 0 {
          longOpts[longEnd] := LongFor(o, main, group);
          longEnd := longEnd + 1;
          longOpts[longEnd] := longOpts[longEnd].(name := None);
        }
      }
    }

    /** convert_options: one option, `main` being the latest non-alias. */
    method ConvertOption(o: Opt, main: Opt, group: nat)
      requires Valid() && group <= groups.Length
      requires shortEnd + 3 < shortOpts.Length && longEnd + 1 < longOpts.Length
      modifies this`shortEnd, this`longEnd, shortOpts, longOpts
      ensures Valid() && Filled(group) == AddOption(old(Filled(group)), o, main)
    {
      if !main.docOnly {
        ConvertShort(o, main);
        ConvertLong(o, main, group);
      } else {
        assert shortOpts[..shortEnd] + [] == shortOpts[..shortEnd];
      }
    }

    /** There is room for one more option of a table. */
    lemma RoomForOption(opts: seq<Opt>, i: nat, group: nat, t: Tables)
      requires Valid() && group <= groups.Length && i < |opts| && Filled(group) == OptionsUpTo(opts, i, t)
      requires |t.shorts| + 3 * |opts| < shortOpts.Length && |t.longs| + |opts| < longOpts.Length
      ensures shortEnd + 3 < shortOpts.Length && longEnd + 1 < longOpts.Length
    {
      OptionsUpToBounds(opts, i, t);
      hide OptionsUpTo;
      assert |Filled(group).shorts| == shortEnd && |Filled(group).longs| == longEnd;
    }

    /** convert_options: the loop over one table. */
    method ConvertTable(opts: seq<Opt>, group: nat)
      requires Valid() && group <= groups.Length
      requires shortEnd + 3 * |opts| < shortOpts.Length && longEnd + |opts| < longOpts.Length
      modifies this`shortEnd, this`longEnd, shortOpts, longOpts
      ensures Valid() && Filled(group) == OptionsUpTo(opts, |opts|, old(Filled(group)))
    {
      ghost var t := Filled(group);
      assert |t.shorts| == shortEnd && |t.longs| == longEnd;
      hide OptionsUpTo, AddOption, Real;
      NoOptionsYet(opts, t);
      if |opts| > 0 {
        var main := opts[0];
        var i := 0;
        while i < |opts|
          invariant 0 <= i <= |opts| && Valid() && Filled(group) == OptionsUpTo(opts, i, t)
          invariant main == if i == 0 then opts[0] else Real(opts, i - 1)
        {
          NextOption(opts, i, t);
          RoomForOption(opts, i, group, t);
          if !opts[i].alias {
            main := opts[i];
          }
          ConvertOption(opts[i], main, group);
          i := i + 1;
        }
      }
    }

    /** Room for a list of argps, by the counts of calc_sizes. */
    ghost predicate Room(nodes: seq<Argp>, group: nat)
      reads this
    {
      && shortEnd + 3 * CountOpts(nodes) < shortOpts.Length
      && longEnd + CountOpts(nodes) < longOpts.Length
      && group + CountGroups(nodes) < groups.Length
    }

    /** convert_options: one argp, its children left out. */
    method ConvertGroup(a: Argp, parent: int, parentIndex: nat, group: nat, node: nat)
      returns (next: nat, forChildren: int)
      requires Valid() && Room([a], group)
      modifies this, groups, shortOpts, longOpts
      ensures Valid() && next <= groups.Length
      ensures Filled(next) == ConvertNode(a, parent, parentIndex, node, old(Filled(group)))
      ensures forChildren == ParentFor(a, old(Filled(group)))
    {
      CountOne(a);
      ghost var t := Filled(group);
      if a.options.Some? || a.hasParser {
        if a.options.Some? {
          ConvertTable(a.options.value, group);
        }
        OptionsUpToShorts(Table(a), |Table(a)|, t);
        groups[group] := Group(a, node, shortEnd, 0, parent, parentIndex, childInputsEnd);
        childInputsEnd := childInputsEnd + |a.children|;
        forChildren := group;
        next := group + 1;
        assert groups[..next] == t.groups + [groups[group]];
      } else {
        forChildren := NO_GROUP;
        next := group;
      }
    }

    /** The tables after `i` children of an argp have been converted. */
    ghost predicate FilledUpTo(a: Argp, i: nat, parent: int, parentIndex: nat, node: nat, next: nat, t: Tables)
      requires i <= |a.children|
      reads this, groups, shortOpts, longOpts
    {
      && Valid() && next <= groups.Length
      && Filled(next) == ConvertUpTo(a, i, parent, parentIndex, node, t)
    }

    /** The tables started with room for the whole of `a`. */
    ghost predicate RoomAfter(a: Argp, t: Tables)
      reads this
    {
      && |t.shorts| + 3 * CountOpts(Nodes(a)) < shortOpts.Length
      && |t.longs| + CountOpts(Nodes(a)) < longOpts.Length
      && |t.groups| + CountGroups(Nodes(a)) < groups.Length
    }

    /** convert_options: one round of the loop over the children. */
    method ConvertChild(a: Argp, i: nat, parent: int, parentIndex: nat, node: nat, group: nat, forChildren: int,
                        place: nat, ghost t: Tables)
      returns (next: nat)
      requires i < |a.children| && place == node + |NodesUpTo(a, i)| && forChildren == ParentFor(a, t)
      requires FilledUpTo(a, i, parent, parentIndex, node, group, t) && RoomAfter(a, t)
      modifies this, groups, shortOpts, longOpts
      ensures FilledUpTo(a, i + 1, parent, parentIndex, node, next, t)
      decreases a, 0
    {
      hide CountOpts, CountGroups, NodesUpTo, Nodes, OptionsUpTo;
      RoomForChild(a, i);
      ConvertWithin(a, i, parent, parentIndex, node, t);
      next := ConvertOptions(a.children[i].argp, forChildren, i, group, place);
    }

    /** convert_options */
    method ConvertOptions(a: Argp, parent: int, parentIndex: nat, group: nat, node: nat) returns (next: nat)
      requires Valid() && Room(Nodes(a), group)
      modifies this, groups, shortOpts, longOpts
      ensures Valid() && next <= groups.Length
      ensures Filled(next) == Convert(a, parent, parentIndex, node, old(Filled(group)))
      decreases a, 1
    {
      ghost var t := Filled(group);
      RoomForPart(a, 0);
      var forChildren;
      next, forChildren := ConvertGroup(a, parent, parentIndex, group, node);
      var place := node + 1;
      var index := 0;
      while index < |a.children|
        invariant 0 <= index <= |a.children| && place == node + |NodesUpTo(a, index)|
        invariant FilledUpTo(a, index, parent, parentIndex, node, next, t)
      {
        next := ConvertChild(a, index, parent, parentIndex, node, next, forChildren, place, t);
        place := place + |Nodes(a.children[index].argp)|;
        index := index + 1;
      }
    }
  }

  lemma RoomForChild(a: Argp, i: nat)
    requires i < |a.children|
    ensures CountOpts(NodesUpTo(a, i)) + CountOpts(Nodes(a.children[i].argp)) <= CountOpts(Nodes(a))
    ensures CountGroups(NodesUpTo(a, i)) + CountGroups(Nodes(a.children[i].argp)) <= CountGroups(Nodes(a))
  {
    assert NodesUpTo(a, i + 1) == NodesUpTo(a, i) + Nodes(a.children[i].argp);
    CountOptsAppend(NodesUpTo(a, i), Nodes(a.children[i].argp));
    CountGroupsAppend(NodesUpTo(a, i), Nodes(a.children[i].argp));
    RoomForPart(a, i + 1);
  }

  lemma {:induction false} RoomForPart(a: Argp, i: nat)
    requires i <= |a.children|
    ensures CountOpts(NodesUpTo(a, i)) <= CountOpts(Nodes(a))
    ensures CountGroups(NodesUpTo(a, i)) <= CountGroups(Nodes(a))
    decreases |a.children| - i
  {
    if i < |a.children| {
      CountOptsAppend(NodesUpTo(a, i), Nodes(a.children[i].argp));
      CountGroupsAppend(NodesUpTo(a, i), Nodes(a.children[i].argp));
      RoomForPart(a, i + 1);
    }
  }

  /** parser_init and parser_convert without ARGP_NO_ARGS: the tables are
      allocated by the counts and filled within them. */
  method ParserConvert(a: Argp, inOrder: bool) returns (parser: Converter, egroup: nat, numChildInputs: nat)
    ensures fresh(parser) && parser.Valid() && egroup < parser.groups.Length
    ensures parser.Filled(egroup) == TablesOf(a, inOrder)
    ensures parser.childInputsEnd <= numChildInputs == |Nodes(a)| - 1
  {
    var szs := new ParserSizes();
    CalcSizes(a, szs);
    numChildInputs := szs.numChildInputs;
    parser := new Converter(szs.shortLen, szs.longLen, szs.numGroups);
    if inOrder {
      parser.PutShort(DASH);
    }
    parser.shortOpts[parser.shortEnd] := 0;
    parser.longOpts[0] := LongOption(None, NoArgument, 0);
    assert parser.Filled(0) == StartTables(inOrder);
    CountsCoverTables(a, inOrder);
    egroup := parser.ConvertOptions(a, NO_GROUP, 0, 0, 0);
  }
}
