/** The usage line: the short options without arguments that help lists. */
module HelpUsage {
  import opened ArgpOptions
  import opened HolEntries
  import opened FirstSeen
  import opened ArgpHelp
  import opened HelpShadowing
  import opened HelpList

  /** The visible options of an entry that no earlier option shadows. */
  function Open(es: seq<Entry>, i: nat): seq<Opt>
    requires i < |es|
  {
    Visible(Unshadowed(es[i].opts, KeysOf(es[..i])))
  }

  /** An option that stands for itself and its aliases that stand for it. */
  function Standing(opts: seq<Opt>, main: Opt): seq<Match> {
    seq(|opts|, i requires 0 <= i < |opts| => Match(opts[i], main))
  }

  /** What the callbacks see when an entry of the finished list is walked. */
  lemma ShownIsOpen(es: seq<Entry>, i: nat, buffer: seq<Byte>)
    requires i < |es| && HasHead(es[i].opts) && Holds(buffer, Dedup(KeysOf(es)))
    ensures Shown(Placed(es)[i], buffer) == Standing(Open(es, i), es[i].opts[0])
  {
    hide Matches, Visible, Kept, Unshadowed, KeysOf, Dedup, Holds;
    var e, s := Placed(es)[i], Dedup(KeysOf(es));
    KeysOfSnoc(es, i);
    DedupPrefix(KeysOf(es[..i]), ShortKeys(es[i].opts) + KeysOf(es[i + 1..]));
    Assoc(KeysOf(es[..i]), ShortKeys(es[i].opts), KeysOf(es[i + 1..]));
    KeptInBuffer(e.opts, buffer, s, e.so);
    KeptIsUnshadowed(e.opts, s, e.so, KeysOf(es[..i]), KeysOf(es[i + 1..]));
    MatchesAreKept(e.opts, buffer, e.so, e.opts[0]);
    RealIsFirst(e.opts, buffer, e.so, e.opts[0]);
    var ms := Shown(e, buffer);
    assert forall j :: 0 <= j < |ms| ==> ms[j] in ms && ms[j].opt == Options(ms)[j];
  }

  /** hol_entry_short_iterate over an entry of a tree's finished list, with any
      callback: it sees the entry's visible options that no earlier option of
      the tree shadows, up to its first non-zero answer. */
  method WalkEntry(a: Argp, hol: Hol, i: nat, func: Match -> int) returns (val: int, visited: seq<Match>)
    requires hol.Valid() && hol.outline == ListOf(a) && i < hol.numEntries && Headed(ListOf(a))
    ensures visited == Until(Standing(Open(ListOf(a), i), ListOf(a)[i].opts[0]), func)
  {
    val, visited := ShortIterate(hol.entries[i], hol.shorts[..], func);
    ShownIsOpen(ListOf(a), i, hol.shorts[..]);
  }

  // ---------------------------------------------------------------------
  // The line of options without arguments

  predicate Argless(o: Opt, main: Opt) {
    !(o.hasArg || main.hasArg) && !(o.noUsage || main.noUsage)
  }

  /** The keys of the options that are listed. */
  function ArglessKeys(opts: seq<Opt>, main: Opt): seq<Byte> {
    if opts == [] then []
    else (if Argless(opts[0], main) then [opts[0].key] else []) + ArglessKeys(opts[1..], main)
  }

  /** The keys listed for entry `i`. */
  function EntryLine(es: seq<Entry>, i: nat): seq<Byte>
    requires i < |es| && HasHead(es[i].opts)
  {
    ArglessKeys(Open(es, i), es[i].opts[0])
  }

  /** The positions that the sorted entries had before. */
  predicate IsOrder(order: seq<nat>, n: nat) {
    && |order| == n
    && (forall j :: 0 <= j < n ==> order[j] < n)
    && forall j, k :: 0 <= j < k < n ==> order[j] != order[k]
  }

  predicate InRange(order: seq<nat>, n: nat) {
    forall j :: 0 <= j < |order| ==> order[j] < n
  }

  function UsageLine(es: seq<Entry>, order: seq<nat>): seq<Byte>
    requires Headed(es) && InRange(order, |es|)
  {
    if order == [] then []
    else UsageLine(es, order[..|order| - 1]) + EntryLine(es, order[|order| - 1])
  }

  /** add_argless_short_opt on each match of an entry. */
  method AddArgless(e: Entry, s: seq<Byte>, ghost open: seq<Opt>, line: array<Byte>, end: nat) returns (end': nat)
    requires HasHead(e.opts) && Shown(e, s) == Standing(open, e.opts[0])
    requires end + |ArglessKeys(open, e.opts[0])| <= line.Length
    modifies line
    ensures end' == end + |ArglessKeys(open, e.opts[0])|
    ensures line[..end'] == old(line[..end]) + ArglessKeys(open, e.opts[0])
  {
    hide Shown;
    var val, visited := ShortIterate(e, s, m => 0);
    UntilNever(Shown(e, s), m => 0);
    end' := end;
    ghost var goal := ArglessKeys(open, e.opts[0]);
    var i := 0;
    assert open[0..] == open;
    assert line[..end] + goal == old(line[..end]) + goal;
    while i < |visited|
      invariant 0 <= i <= |visited| && visited == Shown(e, s)
      invariant end' + |ArglessKeys(open[i..], e.opts[0])| == end + |goal|
      invariant line[..end'] + ArglessKeys(open[i..], e.opts[0]) == old(line[..end]) + goal
    {
      var m := visited[i];
      assert open[i..][0] == m.opt && open[i..][1..] == open[i + 1..];
      ghost var held, later := line[..end'], ArglessKeys(open[i + 1..], e.opts[0]);
      if !(m.opt.hasArg || m.main.hasArg) && !(m.opt.noUsage || m.main.noUsage) {
        Assoc(held, [m.opt.key], later);
        line[end'] := m.opt.key;
        end' := end' + 1;
        assert line[..end'] == held + [m.opt.key];
      } else {
        assert [] + later == later;
      }
      i := i + 1;
    }
    assert line[..end'] + [] == line[..end'];
  }

  /** hol_sort: qsort leaves the entries in the given order. */
  method HolSort(hol: Hol, order: seq<nat>)
    requires hol.Valid() && IsOrder(order, hol.numEntries)
    modifies hol.entries
    ensures Ordered(hol, order)
  {
    if hol.numEntries > 0 {
      var before := hol.entries[..];
      for j := 0 to hol.numEntries
        invariant forall k :: 0 <= k < j ==> hol.entries[k] == before[order[k]]
      {
        hol.entries[j] := before[order[j]];
      }
    }
  }

  /** A list after sorting. */
  ghost predicate Ordered(hol: Hol, order: seq<nat>)
    reads hol, hol.entries, hol.shorts
  {
    && hol.numEntries == |hol.outline| && IsOrder(order, hol.numEntries)
    && (hol.numEntries > 0 ==>
          && hol.entries.Length == hol.numEntries
          && (forall j :: 0 <= j < hol.numEntries ==> hol.entries[j] == Placed(hol.outline)[order[j]])
          && Holds(hol.shorts[..], Dedup(KeysOf(hol.outline))))
  }

  lemma OrderedIs(hol: Hol, order: seq<nat>, j: nat)
    requires Ordered(hol, order) && j < hol.numEntries && Headed(hol.outline)
    ensures IsOrder(order, |hol.outline|) && hol.numEntries == |hol.outline| == hol.entries.Length
    ensures Holds(hol.shorts[..], Dedup(KeysOf(hol.outline))) && HasHead(hol.outline[order[j]].opts)
    ensures hol.entries[j] == Placed(hol.outline)[order[j]] && hol.entries[j].opts == hol.outline[order[j]].opts
  {
    hide Dedup, KeysOf, Holds;
  }

  /** One entry of the list. */
  method AddEntry(hol: Hol, ghost order: seq<nat>, j: nat, line: array<Byte>, end: nat) returns (end': nat)
    requires Ordered(hol, order) && Headed(hol.outline) && j < hol.numEntries && line != hol.shorts
    requires order[j] < |hol.outline| && HasHead(hol.outline[order[j]].opts)
    requires end + |EntryLine(hol.outline, order[j])| <= line.Length
    modifies line
    ensures Ordered(hol, order) && end' == end + |EntryLine(hol.outline, order[j])|
    ensures line[..end'] == old(line[..end]) + EntryLine(hol.outline, order[j])
  {
    hide Ordered, Headed, Shown, ArglessKeys, Open, KeysOf, Dedup, Holds;
    OrderedIs(hol, order, j);
    ghost var es, i := hol.outline, order[j];
    ShownIsOpen(es, i, hol.shorts[..]);
    end' := AddArgless(hol.entries[j], hol.shorts[..], Open(es, i), line, end);
  }

  /** hol_usage, its list of short options without arguments: the buffer has
      room for all of them. */
  method ArglessShorts(hol: Hol, ghost order: seq<nat>) returns (line: seq<Byte>)
    requires Ordered(hol, order) && Headed(hol.outline)
    ensures line == UsageLine(hol.outline, order)
  {
    if hol.numEntries == 0 {
      return [];
    }
    ghost var es := hol.outline;
    hide UsageLine, EntryLine, Dedup, KeysOf, Ordered, Headed;
    OrderedIs(hol, order, 0);
    var room := StrLen(hol.shorts, Dedup(KeysOf(es)));
    var buffer := new Byte[room + 1](_ => 0);
    var end := 0;
    LineFits(es, order);
    LineStep(es, order, 0);
    var j := 0;
    while j < hol.numEntries
      invariant 0 <= j <= hol.numEntries && fresh(buffer) && Ordered(hol, order)
      invariant 0 <= end <= room < buffer.Length && buffer[..end] == UsageLine(es, order[..j])
    {
      OrderedIs(hol, order, j);
      LineStep(es, order, j);
      LineGrows(es, order, j + 1);
      end := AddEntry(hol, order, j, buffer, end);
      j := j + 1;
    }
    assert order[..j] == order;
    line := buffer[..end];
    if end > 0 {
      buffer[end] := 0;
    }
  }

  /** One entry more. */
  lemma LineStep(es: seq<Entry>, order: seq<nat>, j: nat)
    requires Headed(es) && InRange(order, |es|) && j <= |order|
    ensures UsageLine(es, order[..0]) == []
    ensures j < |order| ==> UsageLine(es, order[..j + 1]) == UsageLine(es, order[..j]) + EntryLine(es, order[j])
  {
    assert j < |order| ==> order[..j + 1][..j] == order[..j];
  }

  lemma {:induction false} LineGrows(es: seq<Entry>, order: seq<nat>, j: nat)
    requires Headed(es) && InRange(order, |es|) && j <= |order|
    ensures |UsageLine(es, order[..j])| <= |UsageLine(es, order)|
    decreases |order| - j
  {
    if j < |order| {
      hide UsageLine;
      LineStep(es, order, j);
      LineGrows(es, order, j + 1);
    } else {
      assert order[..j] == order;
    }
  }

  predicate NoRepeat(ks: seq<Byte>) {
    forall p, q :: 0 <= p < q < |ks| ==> ks[p] != ks[q]
  }

  /** A listed key is that of a visible option that no earlier one shadows,
      takes no argument, and is to be in the usage. */
  predicate Listed(o: Opt, opts: seq<Opt>, before: seq<Byte>, main: Opt) {
    o in Unshadowed(opts, before) && !o.hidden && !o.hasArg && !main.hasArg && !o.noUsage && !main.noUsage
  }

  /** What a line says about the options it is made from. */
  ghost predicate Tells(ks: seq<Byte>, opts: seq<Opt>, before: seq<Byte>, main: Opt) {
    && NoRepeat(ks) && (forall k :: k in ks ==> k in ShortKeys(opts) && k !in before)
    && (forall k :: k in ks ==> exists o :: Listed(o, opts, before, main) && o.key == k)
    && (forall o :: Listed(o, opts, before, main) ==> o.key in ks)
  }

  lemma LineAdds(o: Opt, later: seq<Opt>, main: Opt)
    ensures ArglessKeys(Visible([o] + later), main)
            == (if !o.hidden && Argless(o, main) then [o.key] else []) + ArglessKeys(Visible(later), main)
  {
    assert ([o] + later)[1..] == later;
    var shown := Visible(later);
    assert ([o] + shown)[1..] == shown;
    assert [] + ArglessKeys(shown, main) == ArglessKeys(shown, main);
  }

  lemma UnshadowedStep(opts: seq<Opt>, before: seq<Byte>)
    requires opts != []
    ensures var o, rest := opts[0], opts[1..];
            && (!IsShort(o) ==> ShortKeys(opts) == ShortKeys(rest))
            && (!IsShort(o) ==> Unshadowed(opts, before) == Unshadowed(rest, before))
            && (IsShort(o) ==>
                  && ShortKeys(opts) == [o.key] + ShortKeys(rest)
                  && (o.key in before ==> Unshadowed(opts, before) == Unshadowed(rest, before + [o.key]))
                  && (o.key !in before ==> Unshadowed(opts, before) == [o] + Unshadowed(rest, before + [o.key])))
  {
    assert [] + ShortKeys(opts[1..]) == ShortKeys(opts[1..]);
    var later := Unshadowed(opts[1..], before + [opts[0].key]);
    assert [] + later == later;
  }

  /** An option that is not shown changes nothing. */
  lemma TellsOn(ks: seq<Byte>, opts: seq<Opt>, before: seq<Byte>, next: seq<Byte>, main: Opt)
    requires opts != [] && Tells(ks, opts[1..], next, main) && before <= next
    requires Unshadowed(opts, before) == Unshadowed(opts[1..], next)
    requires forall k :: k in ShortKeys(opts[1..]) ==> k in ShortKeys(opts)
    ensures Tells(ks, opts, before, main)
  {
    hide Unshadowed, ShortKeys, NoRepeat, Argless;
    assert forall o :: Listed(o, opts, before, main) <==> Listed(o, opts[1..], next, main);
    hide Listed;
    assert forall k :: k in before ==> k in next;
  }

  lemma ListedFirst(opts: seq<Opt>, before: seq<Byte>, main: Opt)
    requires opts != []
    requires Unshadowed(opts, before) == [opts[0]] + Unshadowed(opts[1..], before + [opts[0].key])
    ensures forall o :: Listed(o, opts, before, main)
              <==> (o == opts[0] && !o.hidden && Argless(o, main))
                   || Listed(o, opts[1..], before + [opts[0].key], main)
  {
    hide Unshadowed;
  }

  /** One option more. */
  lemma TellsOneMore(added: seq<Byte>, ks: seq<Byte>, opts: seq<Opt>, before: seq<Byte>, main: Opt)
    requires opts != [] && Tells(ks, opts[1..], before + [opts[0].key], main)
    requires Unshadowed(opts, before) == [opts[0]] + Unshadowed(opts[1..], before + [opts[0].key])
    requires ShortKeys(opts) == [opts[0].key] + ShortKeys(opts[1..]) && opts[0].key !in before
    requires added == if !opts[0].hidden && Argless(opts[0], main) then [opts[0].key] else []
    ensures Tells(added + ks, opts, before, main)
  {
    hide Unshadowed, ShortKeys, Argless, Listed;
    var o, rest, next := opts[0], opts[1..], before + [opts[0].key];
    ListedFirst(opts, before, main);
    assert o.key in next;
    assert forall k :: k in before ==> k in next;
  }

  lemma {:induction false} LineOf(opts: seq<Opt>, before: seq<Byte>, main: Opt)
    ensures Tells(ArglessKeys(Visible(Unshadowed(opts, before)), main), opts, before, main)
  {
    if opts != [] {
      hide ArglessKeys, Visible, Argless, IsShort, Unshadowed, Tells, ShortKeys;
      var o, rest := opts[0], opts[1..];
      var next := if IsShort(o) then before + [o.key] else before;
      var later := Unshadowed(rest, next);
      var ks := ArglessKeys(Visible(later), main);
      UnshadowedStep(opts, before);
      LineOf(rest, next, main);
      if !IsShort(o) || o.key in before {
        TellsOn(ks, opts, before, next, main);
      } else {
        LineAdds(o, later, main);
        TellsOneMore(if !o.hidden && Argless(o, main) then [o.key] else [], ks, opts, before, main);
      }
    }
  }

  lemma EntryTells(es: seq<Entry>, i: nat)
    requires i < |es| && HasHead(es[i].opts)
    ensures Tells(EntryLine(es, i), es[i].opts, KeysOf(es[..i]), es[i].opts[0])
  {
    LineOf(es[i].opts, KeysOf(es[..i]), es[i].opts[0]);
  }

  /** The lines of different entries have no key in common. */
  lemma EntriesApart(es: seq<Entry>, i: nat, j: nat)
    requires i < j < |es| && HasHead(es[i].opts) && HasHead(es[j].opts)
    ensures forall k :: k in EntryLine(es, i) ==> k !in EntryLine(es, j)
  {
    EntryTells(es, i);
    EntryTells(es, j);
    hide EntryLine, KeysOf, Listed;
    KeysOfSnoc(es[..j], i);
    assert es[..j][..i] == es[..i] && es[..j][i] == es[i];
  }

  /** The usage line names no option twice, and names exactly the listed
      options of the entries, in whatever order they were sorted. */
  lemma {:induction false} UsageTells(es: seq<Entry>, order: seq<nat>)
    requires Headed(es) && InRange(order, |es|) && forall j, k :: 0 <= j < k < |order| ==> order[j] != order[k]
    ensures NoRepeat(UsageLine(es, order))
    ensures forall k :: k in UsageLine(es, order) <==> exists j :: 0 <= j < |order| && k in EntryLine(es, order[j])
    decreases |order|
  {
    hide UsageLine, EntryLine, HasHead, NoRepeat;
    LineStep(es, order, |order|);
    if order == [] {
      assert order[..0] == order;
      NoneRepeats();
    } else {
      var n := |order| - 1;
      var init, last := order[..n], order[n];
      assert order == init + [last] && order[..n + 1] == order;
      UsageTells(es, init);
      LineStep(es, order, n);
      EntryOnce(es, last);
      forall j | 0 <= j < n ensures forall k :: k in EntryLine(es, init[j]) ==> k !in EntryLine(es, last) {
        if order[j] < last {
          EntriesApart(es, order[j], last);
        } else {
          EntriesApart(es, last, order[j]);
        }
      }
      NoRepeatJoin(UsageLine(es, init), EntryLine(es, last));
    }
  }

  lemma EntryOnce(es: seq<Entry>, i: nat)
    requires i < |es| && HasHead(es[i].opts)
    ensures NoRepeat(EntryLine(es, i))
  {
    EntryTells(es, i);
    hide EntryLine, NoRepeat, Listed;
  }

  lemma NoneRepeats()
    ensures NoRepeat([])
  {
  }

  lemma NoRepeatJoin(a: seq<Byte>, b: seq<Byte>)
    requires NoRepeat(a) && NoRepeat(b) && forall k :: k in a ==> k !in b
    ensures NoRepeat(a + b)
  {
    assert forall p :: 0 <= p < |a| ==> a[p] in a;
    assert forall p :: 0 <= p < |b| ==> b[p] in b;
  }

  lemma {:induction false} AsManyAsDistinct(ks: seq<Byte>)
    requires NoRepeat(ks)
    ensures |set k | k in ks| == |ks|
  {
    if ks != [] {
      var n := |ks| - 1;
      AsManyAsDistinct(ks[..n]);
      assert ks == ks[..n] + [ks[n]];
      assert (set k | k in ks) == (set k | k in ks[..n]) + {ks[n]};
      assert ks[n] !in ks[..n];
    }
  }

  lemma {:induction false} AtMostLength(ks: seq<Byte>)
    ensures |set k | k in ks| <= |ks|
  {
    if ks != [] {
      var n := |ks| - 1;
      AtMostLength(ks[..n]);
      assert ks == ks[..n] + [ks[n]];
      assert (set k | k in ks) == (set k | k in ks[..n]) + {ks[n]};
    }
  }

  /** Keys without repeats, all of them among `ds`. */
  lemma Fits(ks: seq<Byte>, ds: seq<Byte>)
    requires NoRepeat(ks) && forall k :: k in ks ==> k in ds
    ensures |ks| <= |ds|
  {
    AsManyAsDistinct(ks);
    AtMostLength(ds);
    var kset, dset := set k | k in ks, set k | k in ds;
    assert dset == kset + (dset - kset);
  }

  /** The line has no more keys than the list's string. */
  lemma LineFits(es: seq<Entry>, order: seq<nat>)
    requires Headed(es) && IsOrder(order, |es|)
    ensures |UsageLine(es, order)| <= |Dedup(KeysOf(es))|
  {
    hide UsageLine, EntryLine, Listed, KeysOf, Dedup;
    UsageTells(es, order);
    DedupMembers(KeysOf(es));
    forall k | k in UsageLine(es, order) ensures k in KeysOf(es) {
      var j :| 0 <= j < |order| && k in EntryLine(es, order[j]);
      EntryTells(es, order[j]);
      KeysOfSnoc(es, order[j]);
    }
    Fits(UsageLine(es, order), Dedup(KeysOf(es)));
  }

  // ---------------------------------------------------------------------
  // The line of a tree

  /** The usage line of a tree: building the list, sorting it and walking it
      lists once each the keys of the visible options without arguments that
      no earlier option of the tree shadows, and no others. */
  method TreeUsage(a: Argp, order: seq<nat>) returns (line: seq<Byte>)
    requires NoLeadingAlias(a) && IsOrder(order, |ListOf(a)|)
    ensures Headed(ListOf(a)) && line == UsageLine(ListOf(a), order) && NoRepeat(line)
    ensures forall k :: k in line <==> exists i, o :: Lists(ListOf(a), i, o) && o.key == k
  {
    hide EntriesFor, Place, Nodes, UsageLine, NoRepeat, Lists, NoLeadingAlias, Headed;
    TreeIsHeaded(a);
    var arena := new Arena();
    assert ValidForest([]);
    var hol := ArgpHol(a, NO_CLUSTER, arena, 0);
    HolSort(hol, order);
    line := ArglessShorts(hol, order);
    UsageIsListed(ListOf(a), order);
  }

  /** Option `o` of entry `i` is one that the usage line is to name. */
  predicate Lists(es: seq<Entry>, i: int, o: Opt) {
    0 <= i < |es| && es[i].opts != [] && Listed(o, es[i].opts, KeysOf(es[..i]), es[i].opts[0])
  }

  lemma UsageIsListed(es: seq<Entry>, order: seq<nat>)
    requires Headed(es) && IsOrder(order, |es|)
    ensures NoRepeat(UsageLine(es, order))
    ensures forall k :: k in UsageLine(es, order) <==> exists i, o :: Lists(es, i, o) && o.key == k
  {
    hide UsageLine, EntryLine, KeysOf, Listed, NoRepeat;
    UsageTells(es, order);
    forall k | k in UsageLine(es, order) ensures exists i, o :: Lists(es, i, o) && o.key == k {
      var j :| 0 <= j < |order| && k in EntryLine(es, order[j]);
      EntryTells(es, order[j]);
      var o :| Listed(o, es[order[j]].opts, KeysOf(es[..order[j]]), es[order[j]].opts[0]) && o.key == k;
      assert Lists(es, order[j], o);
    }
    forall i, o | Lists(es, i, o) ensures o.key in UsageLine(es, order) {
      EntryTells(es, i);
      var j := Find(order, |es|, i);
    }
  }

  /** An order reaches every position. */
  lemma Find(order: seq<nat>, n: nat, i: nat) returns (j: nat)
    requires IsOrder(order, n) && i < n
    ensures j < n && order[j] == i
  {
    var positions := seq(n, k => k);
    forall k | 0 <= k < n ensures k in positions {
      assert positions[k] == k;
    }
    if i !in order {
      Fits(order + [i], positions);
      assert false;
    }
    j :| 0 <= j < n && order[j] == i;
  }
}
