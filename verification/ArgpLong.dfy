/** The long option table and the values it encodes. */
module ArgpLong {
  import opened ArgpOptions
  import opened FirstSeen
  import opened ParserTables
  import opened ArgpDispatch
  import opened Wrappers

  // ---------------------------------------------------------------------
  // Values

  /** A value gives back the group and the signed user key exactly when the
      key fits in 24 bits and there are fewer than 127 groups before it. */
  lemma ValueRoundTrip(key: int, group: nat)
    ensures var v := Encode(key, group);
            (v / 0x100_0000 - 1 == group && UserKey(v) == key)
            <==> -0x80_0000 <= key < 0x80_0000 && group < 127
  {
    var low, v := key % USER_RANGE, Encode(key, group);
    var n := (group + 1) % 256;
    var high := (group + 1) / 256;
    var raw := low + (group + 1) * USER_RANGE;
    assert raw == low + n * USER_RANGE + high * INT_RANGE;
    assert raw % INT_RANGE == low + n * USER_RANGE by {
      assert 0 <= low + n * USER_RANGE < INT_RANGE;
      DivModUnique(raw, INT_RANGE, high, low + n * USER_RANGE);
    }
    var m := if n >= 128 then n - 256 else n;
    assert v == low + m * USER_RANGE;
    DivModUnique(v, USER_RANGE, m, low);
  }

  lemma DivModUnique(x: int, d: int, q: int, r: int)
    requires d > 0 && 0 <= r < d && x == q * d + r
    ensures x / d == q && x % d == r
  {
    var q', r' := x / d, x % d;
    var k := q - q';
    assert k * d == r' - r;
  }

  /** A value is taken for a short option exactly when the group number plus
      one is a multiple of 256. */
  lemma ValueLooksShort(key: int, group: nat)
    ensures Encode(key, group) / USER_RANGE == 0 <==> (group + 1) % 256 == 0
  {
    var low, v := key % USER_RANGE, Encode(key, group);
    var n := (group + 1) % 256;
    var high := (group + 1) / 256;
    var raw := low + (group + 1) * USER_RANGE;
    assert raw == low + n * USER_RANGE + high * INT_RANGE;
    DivModUnique(raw, INT_RANGE, high, low + n * USER_RANGE);
    var m := if n >= 128 then n - 256 else n;
    assert v == low + m * USER_RANGE;
    DivModUnique(v, USER_RANGE, m, low);
  }

  // ---------------------------------------------------------------------
  // Names

  /** The long options one option declares for group `g`. */
  function Declares(o: Opt, main: Opt, g: nat): seq<LongOption> {
    if main.docOnly || o.name.None? then [] else [LongFor(o, main, g)]
  }

  function TableDecls(opts: seq<Opt>, g: nat): seq<seq<LongOption>> {
    seq(|opts|, i requires 0 <= i < |opts| => Declares(opts[i], Real(opts, i), g))
  }

  /** Everything a list of argps declares, in preorder; an argp's group is
      numbered by the groups before it. */
  function NodeDecls(nodes: seq<Argp>, first: nat): seq<seq<LongOption>> {
    seq(|nodes|, p requires 0 <= p < |nodes| => DeclsOf(nodes[p], first + CountGroups(nodes[..p])))
  }

  function DeclsOf(a: Argp, g: nat): seq<LongOption> {
    Flatten(TableDecls(Table(a), g))
  }

  function AllDecls(a: Argp): seq<LongOption> {
    Flatten(NodeDecls(Nodes(a), 0))
  }

  /** Adding declarations one by one, those with a known name dropped. */
  function AddAll(longs: seq<LongOption>, ds: seq<LongOption>): seq<LongOption>
    decreases |ds|
  {
    if ds == [] then longs
    else
      var before, d := AddAll(longs, ds[..|ds| - 1]), ds[|ds| - 1];
      if HasName(before, d.name) then before else before + [d]
  }

  lemma {:induction false} AddAllAppend(longs: seq<LongOption>, d1: seq<LongOption>, d2: seq<LongOption>)
    ensures AddAll(longs, d1 + d2) == AddAll(AddAll(longs, d1), d2)
    decreases |d2|
  {
    if d2 == [] {
      assert d1 + d2 == d1;
    } else {
      assert (d1 + d2)[..|d1 + d2| - 1] == d1 + d2[..|d2| - 1];
      AddAllAppend(longs, d1, d2[..|d2| - 1]);
    }
  }

  lemma AddOneDecl(longs: seq<LongOption>, o: Opt, main: Opt, g: nat)
    ensures AddAll(longs, Declares(o, main, g)) == AddLong(longs, o, main, g)
  {
    var ds := Declares(o, main, g);
    if ds != [] {
      assert ds[..0] == [];
    }
  }

  /** One row more. */
  lemma DeclsStep(opts: seq<Opt>, i: nat, g: nat)
    requires i <= |opts|
    ensures i == 0 ==> Flatten(TableDecls(opts, g)[..i]) == []
    ensures i > 0 ==> Flatten(TableDecls(opts, g)[..i])
                      == Flatten(TableDecls(opts, g)[..i - 1]) + Declares(opts[i - 1], Real(opts, i - 1), g)
  {
    hide Real, Declares;
    if i > 0 {
      FlattenSnoc(TableDecls(opts, g), i - 1);
    }
  }

  lemma NothingAdded(opts: seq<Opt>, t: Tables)
    ensures OptionsUpTo(opts, 0, t).longs == AddAll(t.longs, [])
  {
  }

  lemma {:induction false} OptionsAddDecls(opts: seq<Opt>, i: nat, t: Tables)
    requires i <= |opts|
    ensures OptionsUpTo(opts, i, t).longs == AddAll(t.longs, Flatten(TableDecls(opts, |t.groups|)[..i]))
  {
    hide Flatten, OptionsUpTo, Real, AddAll, Declares, AddLong, LongFor;
    var g := |t.groups|;
    var rows := TableDecls(opts, g);
    DeclsStep(opts, i, g);
    if i == 0 {
      NothingAdded(opts, t);
    } else {
      OptionsAddDecls(opts, i - 1, t);
      AddAllAppend(t.longs, Flatten(rows[..i - 1]), Declares(opts[i - 1], Real(opts, i - 1), g));
      AddOneDecl(OptionsUpTo(opts, i - 1, t).longs, opts[i - 1], Real(opts, i - 1), g);
      OptionsStep(opts, i, t);
    }
  }

  lemma OptionsStep(opts: seq<Opt>, i: nat, t: Tables)
    requires 0 < i <= |opts|
    ensures OptionsUpTo(opts, i, t).longs
            == AddLong(OptionsUpTo(opts, i - 1, t).longs, opts[i - 1], Real(opts, i - 1), |t.groups|)
  {
    OptionsUpToShorts(opts, i - 1, t);
  }

  lemma NodeDeclsAppend(n1: seq<Argp>, n2: seq<Argp>, first: nat)
    ensures Flatten(NodeDecls(n1 + n2, first))
            == Flatten(NodeDecls(n1, first)) + Flatten(NodeDecls(n2, first + CountGroups(n1)))
  {
    hide Flatten, CountGroups, DeclsOf;
    var r, r1, r2 := NodeDecls(n1 + n2, first), NodeDecls(n1, first), NodeDecls(n2, first + CountGroups(n1));
    forall p | 0 <= p < |r| ensures r[p] == (r1 + r2)[p] {
      if p < |n1| {
        assert (n1 + n2)[..p] == n1[..p];
      } else {
        assert (n1 + n2)[..p] == n1 + n2[..p - |n1|];
        CountGroupsAppend(n1, n2[..p - |n1|]);
      }
    }
    assert r == r1 + r2;
    FlattenAppend(r1, r2);
  }

  lemma ConvertNodeDecls(a: Argp, parent: int, parentIndex: nat, node: nat, t: Tables)
    ensures ConvertNode(a, parent, parentIndex, node, t).longs
            == AddAll(t.longs, Flatten(NodeDecls([a], |t.groups|)))
  {
    var opts := Table(a);
    var rows := TableDecls(opts, |t.groups|);
    OptionsAddDecls(opts, |opts|, t);
    assert rows[..|opts|] == rows;
    assert NodeDecls([a], |t.groups|) == [Flatten(rows)] by {
      assert [a][..0] == [] && CountGroups([]) == 0;
    }
    FlattenOne(Flatten(rows));
    if !IsGroup(a) {
      assert rows == [];
    }
  }

  /** `r` adds to the table of `t` what the list of argps declares. */
  ghost predicate AddsDecls(r: Tables, t: Tables, nodes: seq<Argp>) {
    && r.longs == AddAll(t.longs, Flatten(NodeDecls(nodes, |t.groups|)))
    && |r.groups| == |t.groups| + CountGroups(nodes)
  }

  lemma AddsDeclsCompose(t: Tables, b: Tables, r: Tables, n1: seq<Argp>, n2: seq<Argp>)
    requires AddsDecls(b, t, n1) && AddsDecls(r, b, n2)
    ensures AddsDecls(r, t, n1 + n2)
  {
    hide Flatten, NodeDecls, CountGroups, AddAll;
    NodeDeclsAppend(n1, n2, |t.groups|);
    CountGroupsAppend(n1, n2);
    AddAllAppend(t.longs, Flatten(NodeDecls(n1, |t.groups|)), Flatten(NodeDecls(n2, |b.groups|)));
  }

  lemma ConvertNodeAdds(a: Argp, parent: int, parentIndex: nat, node: nat, t: Tables)
    ensures AddsDecls(ConvertNode(a, parent, parentIndex, node, t), t, [a])
  {
    ConvertNodeDecls(a, parent, parentIndex, node, t);
    ConvertNodeGroups(a, parent, parentIndex, node, t);
  }

  lemma {:induction false} ConvertAddsDecls(a: Argp, i: nat, parent: int, parentIndex: nat, node: nat, t: Tables)
    requires i <= |a.children|
    ensures AddsDecls(ConvertUpTo(a, i, parent, parentIndex, node, t), t, NodesUpTo(a, i))
    decreases a, i
  {
    hide AddsDecls, ConvertNode;
    if i == 0 {
      ConvertNodeAdds(a, parent, parentIndex, node, t);
    } else {
      var child := a.children[i - 1].argp;
      var b := ConvertUpTo(a, i - 1, parent, parentIndex, node, t);
      var n1 := NodesUpTo(a, i - 1);
      var r := Convert(child, ParentFor(a, t), i - 1, node + |n1|, b);
      assert r == ConvertUpTo(child, |child.children|, ParentFor(a, t), i - 1, node + |n1|, b);
      ConvertAddsDecls(a, i - 1, parent, parentIndex, node, t);
      ConvertAddsDecls(child, |child.children|, ParentFor(a, t), i - 1, node + |n1|, b);
      AddsDeclsCompose(t, b, r, n1, Nodes(child));
    }
  }

  /** The first declaration of a name. */
  function FirstNamed(ds: seq<LongOption>, name: Option<CStr>): (i: nat)
    ensures i <= |ds|
    ensures i < |ds| ==> ds[i].name == name
    ensures forall j :: 0 <= j < i ==> ds[j].name != name
  {
    if ds == [] || ds[0].name == name then 0 else 1 + FirstNamed(ds[1..], name)
  }

  /** Each name stands once, as its first declaration has it, and every
      declared name stands. */
  ghost predicate FirstNames(longs: seq<LongOption>, ds: seq<LongOption>) {
    NamesDiffer(longs) && AreFirst(longs, ds) && AllNamed(longs, ds)
  }

  ghost predicate NamesDiffer(longs: seq<LongOption>) {
    forall i, j :: 0 <= i < j < |longs| ==> longs[i].name != longs[j].name
  }

  ghost predicate AreFirst(longs: seq<LongOption>, ds: seq<LongOption>) {
    forall i :: 0 <= i < |longs| ==>
      FirstNamed(ds, longs[i].name) < |ds| && longs[i] == ds[FirstNamed(ds, longs[i].name)]
  }

  ghost predicate AllNamed(longs: seq<LongOption>, ds: seq<LongOption>) {
    forall i :: 0 <= i < |ds| ==> HasName(longs, ds[i].name)
  }

  lemma FirstNamedMore(ds: seq<LongOption>, d: LongOption, name: Option<CStr>)
    requires FirstNamed(ds, name) < |ds|
    ensures FirstNamed(ds + [d], name) == FirstNamed(ds, name)
  {
    var i := FirstNamed(ds, name);
    assert (ds + [d])[i].name == name;
    assert forall j :: 0 <= j < i ==> (ds + [d])[j].name != name;
  }

  lemma FirstNamesStep(before: seq<LongOption>, ds: seq<LongOption>, after: seq<LongOption>)
    requires ds != [] && FirstNames(before, ds[..|ds| - 1])
    requires after == if HasName(before, ds[|ds| - 1].name) then before else before + [ds[|ds| - 1]]
    ensures FirstNames(after, ds)
  {
    hide FirstNamed, HasName, NamesDiffer, AreFirst, AllNamed;
    var init, d := ds[..|ds| - 1], ds[|ds| - 1];
    assert ds == init + [d];
    if !HasName(before, d.name) {
      StaysDistinct(before, d);
    }
    StayFirst(before, init, d);
    StayNamed(before, init, d);
  }

  lemma StayFirst(before: seq<LongOption>, init: seq<LongOption>, d: LongOption)
    requires AreFirst(before, init) && AllNamed(before, init)
    ensures AreFirst(if HasName(before, d.name) then before else before + [d], init + [d])
  {
    hide FirstNamed, HasName;
    var after, ds := if HasName(before, d.name) then before else before + [d], init + [d];
    forall i | 0 <= i < |after|
      ensures FirstNamed(ds, after[i].name) < |ds| && after[i] == ds[FirstNamed(ds, after[i].name)]
    {
      if i < |before| {
        FirstNamedMore(init, d, before[i].name);
      } else {
        NewNameIsFirst(before, init, d);
      }
    }
  }

  lemma StayNamed(before: seq<LongOption>, init: seq<LongOption>, d: LongOption)
    requires AllNamed(before, init)
    ensures AllNamed(if HasName(before, d.name) then before else before + [d], init + [d])
  {
    hide HasName;
    forall i | 0 <= i < |init + [d]|
      ensures HasName(if HasName(before, d.name) then before else before + [d], (init + [d])[i].name)
    {
      NamesKept(before, init, d, i);
    }
  }

  lemma StaysDistinct(before: seq<LongOption>, d: LongOption)
    requires NamesDiffer(before) && !HasName(before, d.name)
    ensures NamesDiffer(before + [d])
  {
    forall i | 0 <= i < |before| ensures before[i].name != d.name {
      assert before[i].name == d.name ==> HasName(before, d.name);
    }
  }

  lemma NewNameIsFirst(before: seq<LongOption>, init: seq<LongOption>, d: LongOption)
    requires forall i :: 0 <= i < |init| ==> HasName(before, init[i].name)
    requires !HasName(before, d.name)
    ensures FirstNamed(init + [d], d.name) == |init|
  {
    var ds := init + [d];
    forall j | 0 <= j < |init| ensures ds[j].name != d.name {
      assert ds[j] == init[j] && HasName(before, init[j].name);
    }
    assert ds[|init|] == d;
  }

  lemma NamesKept(before: seq<LongOption>, init: seq<LongOption>, d: LongOption, i: nat)
    requires forall j :: 0 <= j < |init| ==> HasName(before, init[j].name)
    requires i <= |init|
    ensures HasName(if HasName(before, d.name) then before else before + [d], (init + [d])[i].name)
  {
    var after := if HasName(before, d.name) then before else before + [d];
    var name := (init + [d])[i].name;
    if i < |init| {
      assert HasName(before, init[i].name);
    }
    if HasName(before, name) {
      var k :| 0 <= k < |before| && before[k].name == name;
      assert after[k].name == name;
    } else {
      assert after[|before|].name == name;
    }
  }

  lemma {:induction false} AddAllKeepsFirst(ds: seq<LongOption>)
    ensures FirstNames(AddAll([], ds), ds)
    decreases |ds|
  {
    if ds != [] {
      var n := |ds| - 1;
      AddAllStep(ds);
      hide AddAll, FirstNames, FirstNamed;
      AddAllKeepsFirst(ds[..n]);
      FirstNamesStep(AddAll([], ds[..n]), ds, AddAll([], ds));
    }
  }

  lemma AddAllStep(ds: seq<LongOption>)
    requires ds != []
    ensures var before, d := AddAll([], ds[..|ds| - 1]), ds[|ds| - 1];
            AddAll([], ds) == if HasName(before, d.name) then before else before + [d]
  {
  }

  /** For every tree the table holds each declared name once, as its first
      declaration in preorder gives it. */
  lemma LongTableIsFirstDeclarations(a: Argp, inOrder: bool)
    ensures FirstNames(TablesOf(a, inOrder).longs, AllDecls(a))
  {
    var t := StartTables(inOrder);
    ConvertAddsDecls(a, |a.children|, NO_GROUP, 0, 0, t);
    AddAllKeepsFirst(AllDecls(a));
  }

  /** A long option found in the table takes an argument as its first
      declarer says, and is sent to its group under the key it was declared
      with. */
  lemma LongGoesToFirstDeclarer(a: Argp, inOrder: bool, i: nat) returns (p: nat, j: nat)
    requires i < |TablesOf(a, inOrder).longs|
    ensures p < |Nodes(a)| && j < |Table(Nodes(a)[p])|
    ensures var opts := Table(Nodes(a)[p]);
            var e := TablesOf(a, inOrder).longs[i];
            var key := if opts[j].key != 0 then opts[j].key else Real(opts, j).key;
            var group := CountGroups(Nodes(a)[..p]);
            && !Real(opts, j).docOnly && opts[j].name == e.name && opts[j].name.Some?
            && NotDeclaredBefore(a, p, j)
            && (e.hasArg == NoArgument <==> !Real(opts, j).hasArg)
            && (e.hasArg == RequiredArgument <==> Real(opts, j).hasArg && !Real(opts, j).argOptional)
            && (e.hasArg == OptionalArgument <==> Real(opts, j).hasArg && Real(opts, j).argOptional)
            && ((group + 1) % 256 != 0 ==>
                  (Dispatch(TablesOf(a, inOrder), e.val) == To(group, key)
                   <==> -(USER_RANGE / 2) <= key < USER_RANGE / 2 && group < 127))
  {
    LongTableIsFirstDeclarations(a, inOrder);
    hide Flatten, AddAll, TablesOf, Dispatch, Encode, UserKey, Nodes;
    var e := TablesOf(a, inOrder).longs[i];
    var rows := NodeDecls(Nodes(a), 0);
    var d := FirstNamed(AllDecls(a), e.name);
    var x;
    p, x := Locate(rows, d);
    var group := CountGroups(Nodes(a)[..p]);
    var y;
    j, y := Locate(TableDecls(Table(Nodes(a)[p]), group), x);
    DeclaredFirst(a, e, d, p, x, j, y);
    var main := Real(Table(Nodes(a)[p]), j);
    var o := Table(Nodes(a)[p])[j];
    assert e == LongFor(o, main, group);
    if (group + 1) % 256 != 0 {
      DispatchLong(TablesOf(a, inOrder), if o.key != 0 then o.key else main.key, group);
    }
  }

  lemma DispatchLong(t: Tables, key: int, group: nat)
    requires (group + 1) % 256 != 0
    ensures Dispatch(t, Encode(key, group)) == To(group, key)
            <==> -(USER_RANGE / 2) <= key < USER_RANGE / 2 && group < 127
  {
    hide Encode, UserKey, IndexOf, GroupAt;
    ValueRoundTrip(key, group);
    ValueLooksShort(key, group);
  }

  /** No option before option `j` of argp `p` in preorder gives getopt its
      long name. */
  ghost predicate NotDeclaredBefore(a: Argp, p: nat, j: nat)
    requires p < |Nodes(a)| && j < |Table(Nodes(a)[p])|
  {
    var name := Table(Nodes(a)[p])[j].name;
    forall q, k :: 0 <= q <= p && 0 <= k < |Table(Nodes(a)[q])| && (q < p || k < j)
      ==> !DeclaresName(Table(Nodes(a)[q]), k, name)
  }

  predicate DeclaresName(opts: seq<Opt>, k: nat, name: Option<CStr>)
    requires k < |opts|
  {
    !Real(opts, k).docOnly && opts[k].name.Some? && opts[k].name == name
  }

  lemma DeclaredFirst(a: Argp, e: LongOption, d: nat, p: nat, x: nat, j: nat, y: nat)
    requires var ds, rows := AllDecls(a), NodeDecls(Nodes(a), 0);
             && d == FirstNamed(ds, e.name) < |ds|
             && p < |rows| && x < |rows[p]| && ds[..d] == Flatten(rows[..p]) + rows[p][..x]
    requires var opts := Table(Nodes(a)[p]);
             var tds := TableDecls(opts, CountGroups(Nodes(a)[..p]));
             && j < |opts| && y < |tds[j]| && NodeDecls(Nodes(a), 0)[p][..x] == Flatten(tds[..j]) + tds[j][..y]
             && opts[j].name == e.name
    ensures NotDeclaredBefore(a, p, j)
  {
    hide Flatten, TableDecls, CountGroups, Nodes, Real, Encode;
    var nodes := Nodes(a);
    forall q, k | 0 <= q <= p && 0 <= k < |Table(nodes[q])| && (q < p || k < j)
      ensures !DeclaresName(Table(nodes[q]), k, e.name)
    {
      var group := CountGroups(nodes[..q]);
      var l := LongFor(Table(nodes[q])[k], Real(Table(nodes[q]), k), group);
      assert l.name == e.name ==> l !in AllDecls(a)[..d];
      if q < p {
        DeclaredInRows(nodes, p, q, k, e.name);
      } else {
        DeclaredInTable(Table(nodes[q]), group, j, k, e.name);
      }
    }
  }

  lemma DeclaredInTable(opts: seq<Opt>, g: nat, j: nat, k: nat, name: Option<CStr>)
    requires k < j <= |opts|
    ensures DeclaresName(opts, k, name) ==>
              LongFor(opts[k], Real(opts, k), g) in Flatten(TableDecls(opts, g)[..j])
  {
    var l := LongFor(opts[k], Real(opts, k), g);
    var tds := TableDecls(opts, g);
    InFlatten(tds[..j], l);
    assert tds[..j][k] == tds[k];
  }

  lemma DeclaredInRows(nodes: seq<Argp>, p: nat, q: nat, k: nat, name: Option<CStr>)
    requires q < p <= |nodes| && k < |Table(nodes[q])|
    ensures DeclaresName(Table(nodes[q]), k, name) ==>
              LongFor(Table(nodes[q])[k], Real(Table(nodes[q]), k), CountGroups(nodes[..q]))
                in Flatten(NodeDecls(nodes, 0)[..p])
  {
    var opts, g := Table(nodes[q]), CountGroups(nodes[..q]);
    var l := LongFor(opts[k], Real(opts, k), g);
    var tds, rows := TableDecls(opts, g), NodeDecls(nodes, 0);
    DeclaredInTable(opts, g, |opts|, k, name);
    assert tds[..|opts|] == tds && rows[..p][q] == rows[q] == Flatten(tds);
    InFlatten(rows[..p], l);
  }
}
