/** The short option string that getopt gets, colons included. */
module ArgpShort {
  import opened ArgpOptions
  import opened FirstSeen
  import opened ParserTables
  import opened ArgpDispatch
  import opened Wrappers

  /** A short option that getopt is told of, and the colons it needs: none
      without an argument, one before a required one, two before an optional
      one. */
  datatype ShortDecl = ShortDecl(key: Byte, colons: nat)

  /** The declarations of the first `i` options of a table. */
  function TableDeclares(opts: seq<Opt>, i: nat): seq<ShortDecl>
    requires i <= |opts|
  {
    if i == 0 then []
    else
      var o, main := opts[i - 1], Real(opts, i - 1);
      TableDeclares(opts, i - 1) +
      if o.docOnly || main.docOnly || !(32 <= o.key <= 126) then []
      else [ShortDecl(o.key, if !main.hasArg then 0 else if main.argOptional then 2 else 1)]
  }

  /** Those of a list of argps. */
  function Declared(nodes: seq<Argp>): seq<ShortDecl> {
    if nodes == [] then []
    else
      var a := nodes[|nodes| - 1];
      Declared(nodes[..|nodes| - 1]) + TableDeclares(Table(a), |Table(a)|)
  }

  /** A string that holds keys with colons behind them. */
  function Written(ds: seq<ShortDecl>): seq<Byte> {
    if ds == [] then []
    else Written(ds[..|ds| - 1]) + ([ds[|ds| - 1].key] + Colons(ds[|ds| - 1].colons))
  }

  function Colons(n: nat): seq<Byte> {
    seq(n, i => COLON)
  }

  /** An option stands for itself, an alias for the latest option before it
      that is none. */
  lemma {:induction false} RealIsLatest(opts: seq<Opt>, i: nat) returns (k: nat)
    requires i < |opts|
    ensures k <= i && Real(opts, i) == opts[k] && (k == 0 || !opts[k].alias)
    ensures forall l :: k < l <= i ==> opts[l].alias
  {
    if i == 0 || !opts[i].alias {
      k := i;
    } else {
      k := RealIsLatest(opts, i - 1);
    }
  }

  lemma {:induction false} WrittenAppend(a: seq<ShortDecl>, b: seq<ShortDecl>)
    ensures Written(a + b) == Written(a) + Written(b)
    decreases |b|
  {
    if b == [] {
      assert a + b == a;
    } else {
      var n := |b| - 1;
      assert (a + b)[..|a| + n] == a + b[..n] && (a + b)[|a| + n] == b[n];
      var last := [b[n].key] + Colons(b[n].colons);
      assert Written(a + b) == Written(a + b[..n]) + last && Written(b) == Written(b[..n]) + last;
      hide Written;
      WrittenAppend(a, b[..n]);
      Assoc(Written(a), Written(b[..n]), last);
    }
  }

  lemma WrittenOne(d: ShortDecl)
    ensures Written([d]) == [d.key] + Colons(d.colons)
  {
    assert [d][..0] == [] && [] + ([d.key] + Colons(d.colons)) == [d.key] + Colons(d.colons);
  }

  lemma SpecIsWritten(opts: seq<Opt>, i: nat)
    requires i < |opts|
    ensures TableDeclares(opts, i + 1) == TableDeclares(opts, i) + DeclaredBy(opts, i)
    ensures ShortSpec(opts[i], Real(opts, i)) == Written(DeclaredBy(opts, i))
  {
    hide Real;
    if DeclaredBy(opts, i) != [] {
      WrittenOne(DeclaredBy(opts, i)[0]);
    }
  }

  /** The declaration of option `i`, if it makes one. */
  function DeclaredBy(opts: seq<Opt>, i: nat): seq<ShortDecl>
    requires i < |opts|
  {
    TableDeclares(opts, i + 1)[|TableDeclares(opts, i)|..]
  }

  lemma {:induction false} TableIsWritten(opts: seq<Opt>, i: nat)
    requires i <= |opts|
    ensures Flatten(ShortSpecs(opts)[..i]) == Written(TableDeclares(opts, i))
  {
    hide Flatten, Written, Real, ShortSpec, DeclaredBy;
    if i == 0 {
      NothingWritten();
    } else {
      TableIsWritten(opts, i - 1);
      SpecIsWritten(opts, i - 1);
      FlattenSnoc(ShortSpecs(opts), i - 1);
      WrittenAppend(TableDeclares(opts, i - 1), DeclaredBy(opts, i - 1));
    }
  }

  lemma NothingWritten()
    ensures Written([]) == [] && Flatten<Byte>([]) == []
  {
  }

  lemma {:induction false} NodesAreWritten(nodes: seq<Argp>)
    ensures Flatten(ShortTexts(nodes)) == Written(Declared(nodes))
    decreases |nodes|
  {
    hide Flatten, Written, TableDeclares;
    if nodes == [] {
      NothingWritten();
      assert ShortTexts(nodes) == [];
    } else {
      var n := |nodes| - 1;
      var opts := Table(nodes[n]);
      NodesAreWritten(nodes[..n]);
      FlattenSnoc(ShortTexts(nodes), n);
      assert ShortTexts(nodes)[..n] == ShortTexts(nodes[..n]) && ShortTexts(nodes)[..n + 1] == ShortTexts(nodes);
      TableIsWritten(opts, |opts|);
      assert ShortSpecs(opts)[..|opts|] == ShortSpecs(opts);
      WrittenAppend(Declared(nodes[..n]), TableDeclares(opts, |opts|));
    }
  }

  /** For every tree the string is a leading '-' when arguments are taken in
      order, and then every short option in preorder with its colons. */
  lemma StringIsWritten(a: Argp, inOrder: bool)
    ensures TablesOf(a, inOrder).shorts == (if inOrder then ['-' as int] else []) + Written(Declared(Nodes(a)))
  {
    TablesFollowTree(a, inOrder);
    NodesAreWritten(Nodes(a));
  }

  lemma WrittenFirst(ds: seq<ShortDecl>)
    requires ds != []
    ensures Written(ds) == [ds[0].key] + (Colons(ds[0].colons) + Written(ds[1..]))
  {
    hide Written, Colons;
    assert ds == [ds[0]] + ds[1..];
    WrittenAppend([ds[0]], ds[1..]);
    WrittenOne(ds[0]);
    Assoc([ds[0].key], Colons(ds[0].colons), Written(ds[1..]));
  }

  /** Where declaration `d` is written. */
  lemma PlaceOf(ds: seq<ShortDecl>, d: nat)
    requires d < |ds|
    ensures Written(ds) == Written(ds[..d]) + ([ds[d].key] + (Colons(ds[d].colons) + Written(ds[d + 1..])))
  {
    hide Written, Colons;
    var tail := ds[d..];
    Halves(ds, d);
    WrittenAppend(ds[..d], tail);
    assert tail[0] == ds[d] && tail[1..] == ds[d + 1..];
    WrittenFirst(tail);
  }

  lemma StartsWithKey(ds: seq<ShortDecl>)
    requires ds != []
    ensures Written(ds) != [] && Written(ds)[0] == ds[0].key
  {
    hide Written, Colons;
    WrittenFirst(ds);
  }

  lemma {:induction false} NotWritten(ds: seq<ShortDecl>, k: Byte)
    requires k != COLON && forall i :: 0 <= i < |ds| ==> ds[i].key != k
    ensures k !in Written(ds)
    decreases |ds|
  {
    if ds != [] {
      NotWritten(ds[..|ds| - 1], k);
    }
  }

  /** Declaration `d` is the first of its key. */
  predicate FirstOfKey(ds: seq<ShortDecl>, d: nat) {
    d < |ds| && forall i :: 0 <= i < d ==> ds[i].key != ds[d].key
  }

  /** For every tree: behind the first occurrence of a key in the string stand
      the colons of its first declaration.  They are all the colons there
      unless the next short option is ':' itself. */
  lemma ColonsFollowKey(a: Argp, inOrder: bool, d: nat)
    requires FirstOfKey(Declared(Nodes(a)), d)
    requires var k := Declared(Nodes(a))[d].key; k != COLON && !(inOrder && k == DASH)
    ensures var ds, s := Declared(Nodes(a)), TablesOf(a, inOrder).shorts;
            var at := IndexOf(s, ds[d].key);
            var end := at + 1 + ds[d].colons;
            && end <= |s| && s[at] == ds[d].key && (forall i :: at < i < end ==> s[i] == ':' as int)
            && (end < |s| && s[end] == ':' as int <==> d + 1 < |ds| && ds[d + 1].key == ':' as int)
  {
    hide Written, Declared, Nodes, TablesOf, IndexOf, Colons;
    var ds, s := Declared(Nodes(a)), TablesOf(a, inOrder).shorts;
    var start: seq<Byte> := if inOrder then ['-' as int] else [];
    var before, rest := Written(ds[..d]), Written(ds[d + 1..]);
    StringIsWritten(a, inOrder);
    PlaceOf(ds, d);
    NotWritten(ds[..d], ds[d].key);
    Assoc(start, before, [ds[d].key] + (Colons(ds[d].colons) + rest));
    StandsFirst(start + before, ds[d].key, ds[d].colons, rest);
    assert s == start + before + ([ds[d].key] + (Colons(ds[d].colons) + rest));
    if d + 1 == |ds| {
      NothingWritten();
      assert ds[d + 1..] == [];
    } else {
      StartsWithKey(ds[d + 1..]);
    }
  }

  lemma StandsFirst(before: seq<Byte>, k: Byte, n: nat, rest: seq<Byte>)
    requires k !in before
    ensures var s := before + ([k] + (Colons(n) + rest));
            var end := |before| + 1 + n;
            && IndexOf(s, k) == |before| && end <= |s| && s[|before|] == k
            && (forall i :: |before| < i < end ==> s[i] == COLON)
            && (end < |s| <==> rest != []) && (rest != [] ==> s[end] == rest[0])
  {
    var s := before + ([k] + (Colons(n) + rest));
    assert forall j :: 0 <= j < |before| ==> s[j] == before[j] && before[j] in before;
    assert s[|before|] == k;
  }

  /** An option ':' makes the option before it look as if it took an
      argument: the string of this table is "a:". */
  lemma ColonKeyCounterexample()
    ensures var table := [Opt(None, 'a' as int, false, false, false, false, false, false, 0),
                          Opt(None, ':' as int, false, false, false, false, false, false, 0)];
            TablesOf(Argp(Some(table), true, []), false).shorts == ['a' as int, ':' as int]
  {
    var table := [Opt(None, 'a' as int, false, false, false, false, false, false, 0),
                  Opt(None, ':' as int, false, false, false, false, false, false, 0)];
    var a := Argp(Some(table), true, []);
    var d0, d1 := ShortDecl('a' as int, 0), ShortDecl(':' as int, 0);
    StringIsWritten(a, false);
    assert Nodes(a) == [a];
    assert Declared([a]) == [d0, d1] by {
      assert TableDeclares(table, 0) == [] && TableDeclares(table, 1) == [d0] && TableDeclares(table, 2) == [d0, d1];
      assert [a][..0] == [];
    }
    hide Nodes, TablesOf, Declared, Written;
    WrittenFirst([d0, d1]);
    assert [d0, d1][1..] == [d1];
    WrittenOne(d1);
  }
}
