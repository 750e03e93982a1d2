/** The output templates of ifconfig. A C pointer into a template is the text
    from there to the end of the string. */
module IfTemplate {
  import opened FirstSeen

  const DOLLAR := '$'
  const OPEN := '{'
  const CLOSE := '}'

  /** The pointer `p + n`. */
  function Adv(p: string, n: nat): (q: string)
    requires n <= |p|
    ensures |q| == |p| - n
  {
    p[n..]
  }

  /** What becomes visible: a character printed, or a handler called. */
  datatype Event = Put(c: char) | Call(id: string, args: seq<string>)

  /** The arguments a handler expands with select_arg, in order. */
  type Handlers = (string, seq<string>) -> seq<nat>

  // ---------------------------------------------------------------------
  // Where a scan stops

  /** How far a scan goes; or a step past the end of the string, which
      happens after a final lone '$'. */
  datatype Stop = At(n: nat) | Overrun

  function Plus(k: nat, e: Stop): Stop {
    if e.At? then At(k + e.n) else Overrun
  }

  predicate Stops(s: string, nested: bool) {
    s == "" || (nested && s[0] == CLOSE)
  }

  /** strchr: the position of `c`, or the length of the text. */
  function IndexOf(s: string, c: char): (k: nat)
    ensures k <= |s|
  {
    if s == "" || s[0] == c then 0 else 1 + IndexOf(Adv(s, 1), c)
  }

  function Scan(s: string, nested: bool): (e: Stop)
    ensures e.At? ==> e.n <= |s| && (e.n == 0 <==> Stops(s, nested))
    decreases |s|, 1
  {
    if Stops(s, nested) then At(0)
    else if s[0] != DOLLAR then Plus(1, Scan(Adv(s, 1), nested))
    else if |s| == 1 then Overrun
    else if s[1] != OPEN then Plus(2, Scan(Adv(s, 2), nested))
    else
      var e := Subst(s);
      if e.Overrun? then Overrun else Plus(e.n, Scan(Adv(s, e.n), nested))
  }

  /** The substitution at the start of the text: a name up to the next closing
      brace, then arguments; without such a brace the whole text. */
  function Subst(s: string): (e: Stop)
    requires |s| > 1
    ensures e.At? ==> 1 < e.n <= |s|
    decreases |s|, 0
  {
    var k := IndexOf(Adv(s, 2), CLOSE);
    if k == |s| - 2 then At(|s|) else Plus(k + 3, ScanArgs(Adv(s, k + 3)))
  }

  /** One argument after its opening brace, with its closing brace if there. */
  function ScanArg(s: string): (e: Stop)
    ensures e.At? ==> e.n <= |s|
    decreases |s|, 2
  {
    var e := Scan(s, true);
    if e.At? && e.n < |s| then At(e.n + 1) else e
  }

  /** The text after the argument that starts here with its brace. */
  function AfterArg(s: string): (r: string)
    requires s != "" && ScanArg(Adv(s, 1)).At?
    ensures |r| == |s| - 1 - ScanArg(Adv(s, 1)).n
    decreases |s|, 0
  {
    Adv(s, 1 + ScanArg(Adv(s, 1)).n)
  }

  function ScanArgs(s: string): (e: Stop)
    ensures e.At? ==> e.n <= |s|
    decreases |s|, 1
  {
    if s == "" || s[0] != OPEN then At(0)
    else if ScanArg(Adv(s, 1)).Overrun? then Overrun
    else Plus(1 + ScanArg(Adv(s, 1)).n, ScanArgs(AfterArg(s)))
  }

  /** The text of the argument that starts here. */
  function ArgText(s: string): (a: string)
    requires Scan(s, true).At?
    ensures |a| <= |s|
  {
    s[..Scan(s, true).n]
  }

  predicate Shorter(args: seq<string>, bound: nat) {
    forall a :: a in args ==> |a| < bound
  }

  /** The arguments' texts. */
  function ArgTexts(s: string): (args: seq<string>)
    ensures Shorter(args, |s|)
    decreases |s|
  {
    if s == "" || s[0] != OPEN || ScanArg(Adv(s, 1)).Overrun? then []
    else [ArgText(Adv(s, 1))] + ArgTexts(AfterArg(s))
  }

  // ---------------------------------------------------------------------
  // What a scan prints

  function Puts(s: string): seq<Event> {
    seq(|s|, i requires 0 <= i < |s| => Put(s[i]))
  }

  function Echo(quiet: bool, s: string): seq<Event> {
    if quiet then [] else Puts(s)
  }

  function Out(h: Handlers, s: string, nested: bool, quiet: bool): seq<Event>
    decreases |s|, 1, 1
  {
    if Stops(s, nested) then []
    else if s[0] != DOLLAR then Echo(quiet, [s[0]]) + Out(h, Adv(s, 1), nested, quiet)
    else if |s| == 1 then []
    else if s[1] != OPEN then Echo(quiet, Escaped(s[1])) + Out(h, Adv(s, 2), nested, quiet)
    else if Subst(s).Overrun? then []
    else SubstOut(h, s, quiet) + Out(h, Adv(s, Subst(s).n), nested, quiet)
  }

  /** What '$' and a character other than an opening brace stand for. */
  function Escaped(c: char): string {
    if c == DOLLAR || c == CLOSE then [c] else [DOLLAR, c]
  }

  /** The output of the substitution at the start of the text. */
  function SubstOut(h: Handlers, s: string, quiet: bool): seq<Event>
    requires |s| > 1
    decreases |s|, 1, 0
  {
    var k := IndexOf(Adv(s, 2), CLOSE);
    if k == |s| - 2 then Puts(s)
    else
      var p := Adv(s, k + 3);
      ArgsOut(h, p) + if quiet then [] else CallOut(h, Adv(s, 2)[..k], ArgTexts(p), |s|)
  }

  /** What is printed while arguments are skipped. */
  function ArgsOut(h: Handlers, s: string): seq<Event>
    decreases |s|, 1, 0
  {
    if s == "" || s[0] != OPEN || ScanArg(Adv(s, 1)).Overrun? then []
    else Out(h, Adv(s, 1), true, true) + ArgsOut(h, AfterArg(s))
  }

  /** A handler's call and what it prints by expanding arguments. */
  function CallOut(h: Handlers, id: string, args: seq<string>, bound: nat): seq<Event>
    requires Shorter(args, bound)
    decreases bound, 0, 2 + |h(id, args)|
  {
    [Call(id, args)] + ExpandOut(h, h(id, args), args, bound)
  }

  function ExpandOut(h: Handlers, nrs: seq<nat>, args: seq<string>, bound: nat): seq<Event>
    requires Shorter(args, bound)
    decreases bound, 0, 1 + |nrs|
  {
    if nrs == [] then [] else Chosen(h, nrs[0], args, bound) + ExpandOut(h, nrs[1..], args, bound)
  }

  /** The output of select_arg. */
  function Chosen(h: Handlers, nr: nat, args: seq<string>, bound: nat): seq<Event>
    requires Shorter(args, bound)
    decreases bound, 0, 0
  {
    if nr < |args| then Out(h, args[nr], true, false) else []
  }

  lemma OutStep(h: Handlers, s: string, nested: bool, quiet: bool)
    requires s != "" && !Stops(s, nested)
    ensures s[0] != DOLLAR ==> Out(h, s, nested, quiet) == Echo(quiet, [s[0]]) + Out(h, Adv(s, 1), nested, quiet)
    ensures s[0] == DOLLAR && |s| > 1 && s[1] != OPEN ==>
              Out(h, s, nested, quiet) == Echo(quiet, Escaped(s[1])) + Out(h, Adv(s, 2), nested, quiet)
    ensures s[0] == DOLLAR && |s| > 1 && s[1] == OPEN && Subst(s).At? ==>
              Out(h, s, nested, quiet) == SubstOut(h, s, quiet) + Out(h, Adv(s, Subst(s).n), nested, quiet)
  {
  }

  lemma ArgsOutStep(h: Handlers, s: string)
    requires s != "" && s[0] == OPEN && ScanArg(Adv(s, 1)).At?
    ensures ArgsOut(h, s) == Out(h, Adv(s, 1), true, true) + ArgsOut(h, AfterArg(s))
  {
  }

  lemma ExpandStep(h: Handlers, nrs: seq<nat>, args: seq<string>, bound: nat, i: nat)
    requires i < |nrs| && Shorter(args, bound)
    ensures ExpandOut(h, nrs[i..], args, bound)
            == Chosen(h, nrs[i], args, bound) + ExpandOut(h, nrs[i + 1..], args, bound)
  {
    assert nrs[i..][1..] == nrs[i + 1..];
  }

  lemma AfterArgIs(s: string)
    requires s != "" && ScanArg(Adv(s, 1)).At?
    ensures Scan(Adv(s, 1), true).At?
    ensures var q := Adv(Adv(s, 1), Scan(Adv(s, 1), true).n);
            AfterArg(s) == if q != "" then Adv(q, 1) else q
    ensures Tail(AfterArg(s), s, 1 + ScanArg(Adv(s, 1)).n)
  {
    var p := Adv(s, 1);
    assert Scan(p, true).At?;
    hide Scan;
    var n := Scan(p, true).n;
    Skip(s, 1, n);
    if n < |p| {
      Skip(s, 1 + n, 1);
    }
  }

  lemma ArgTextsStep(s: string)
    requires s != "" && s[0] == OPEN && ScanArg(Adv(s, 1)).At?
    ensures ArgTexts(s) == [ArgText(Adv(s, 1))] + ArgTexts(AfterArg(s))
  {
    hide Scan, Adv, ArgText;
  }

  /** The text from position `n` on. */
  predicate Tail(p: string, s: string, n: nat) {
    n <= |s| && p == Adv(s, n)
  }

  lemma TailStep(p: string, s: string, n: nat, m: nat)
    requires Tail(p, s, n) && m <= |p|
    ensures Tail(Adv(p, m), s, n + m)
  {
  }

  lemma TailTail(q: string, p: string, s: string, m: nat, n: nat)
    requires Tail(q, p, m) && Tail(p, s, n)
    ensures Tail(q, s, n + m) && |q| == |p| - m
  {
  }

  lemma Skip(s: string, n: nat, m: nat)
    requires n + m <= |s|
    ensures Adv(Adv(s, n), m) == Adv(s, n + m)
  {
  }

  lemma Whole(s: string)
    ensures Tail(s, s, 0)
  {
  }

  lemma NothingAfter<T>(b: seq<T>, q: seq<T>)
    requires |q| == 0
    ensures b + q == b
  {
  }

  lemma NoArgsLeft(h: Handlers, s: string)
    requires s == "" || s[0] != OPEN
    ensures ScanArgs(s) == At(0) && ArgsOut(h, s) == [] && ArgTexts(s) == []
  {
  }

  lemma NothingLeft(h: Handlers, p: string, nested: bool, quiet: bool)
    requires Stops(p, nested)
    ensures Scan(p, nested) == At(0) && Out(h, p, nested, quiet) == []
  {
  }

  /** A substitution with a closed name. */
  lemma SubstParts(h: Handlers, s: string, k: nat, id: string, p: string, quiet: bool)
    requires |s| > 1 && k == IndexOf(Adv(s, 2), CLOSE) < |s| - 2 && Subst(s).At?
    requires id == Adv(s, 2)[..k] && p == Adv(Adv(s, 2), k + 1)
    ensures ScanArgs(p).At? && Adv(s, Subst(s).n) == Adv(p, ScanArgs(p).n) && |p| < |s|
    ensures SubstOut(h, s, quiet) == ArgsOut(h, p) + if quiet then [] else CallOut(h, id, ArgTexts(p), |s|)
  {
    Skip(s, 2, k + 1);
  }

  // ---------------------------------------------------------------------
  // The scanner

  class Form {
    const handlers: Handlers
    var format: string
    var depth: nat
    var out: seq<Event>

    constructor (handlers: Handlers, format: string)
      ensures this.handlers == handlers && this.format == format && depth == 0 && out == []
    {
      this.handlers := handlers;
      this.format := format;
      depth, out := 0, [];
    }

    method PutString(s: string)
      modifies this`out
      ensures out == old(out) + Puts(s)
    {
      out := out + seq(|s|, i requires 0 <= i < |s| => Put(s[i]));
    }

    /** select_arg */
    method SelectArg(args: seq<string>, nr: nat, ghost bound: nat)
      requires depth > 0 && Shorter(args, bound) && forall a :: a in args ==> Scan(a, true) == At(|a|)
      modifies this
      ensures depth == old(depth) && out == old(out) + Chosen(handlers, nr, args, bound)
      decreases bound, 0
    {
      assert out + [] == out;
      if nr < |args| {
        format := args[nr];
        PrintInterfaceX(false);
      }
    }

    /** format_handler: the handler of `id` expands some of its arguments */
    method FormatHandler(id: string, args: seq<string>, ghost bound: nat)
      requires depth > 0 && Shorter(args, bound) && forall a :: a in args ==> Scan(a, true) == At(|a|)
      modifies this
      ensures depth == old(depth) && out == old(out) + CallOut(handlers, id, args, bound)
      decreases bound, 1
    {
      var nrs := handlers(id, args);
      ghost var goal := old(out) + CallOut(handlers, id, args, bound);
      Assoc(out, [Call(id, args)], ExpandOut(handlers, nrs, args, bound));
      out := out + [Call(id, args)];
      var i := 0;
      assert nrs[0..] == nrs;
      while i < |nrs|
        invariant i <= |nrs| && depth == old(depth)
        invariant out + ExpandOut(handlers, nrs[i..], args, bound) == goal
      {
        ExpandStep(handlers, nrs, args, bound, i);
        hide Out, ExpandOut, Chosen, CallOut;
        Assoc(out, Chosen(handlers, nrs[i], args, bound), ExpandOut(handlers, nrs[i + 1..], args, bound));
        SelectArg(args, nrs[i], bound);
        i := i + 1;
      }
      assert out + [] == out;
    }

    /** One argument with its braces. */
    method TakeArg() returns (arg: string, ghost n: nat)
      requires depth > 0 && format != "" && format[0] == OPEN && ScanArgs(format).At?
      modifies this
      ensures depth == old(depth) && n > 0 && Tail(format, old(format), n)
      ensures ScanArgs(format).At? && ScanArgs(old(format)) == Plus(n, ScanArgs(format))
      ensures ArgTexts(old(format)) == [arg] + ArgTexts(format)
      ensures out + ArgsOut(handlers, format) == old(out) + ArgsOut(handlers, old(format))
      decreases |format|, 6
    {
      hide Out, ArgsOut, ScanArgs, Scan, ScanArg, ArgTexts, Tail, Adv, AfterArg, Plus;
      ArgStarts(format);
      n := 1 + ScanArg(Adv(format, 1)).n;
      AfterArgIs(format);
      ArgsOutStep(handlers, format);
      ArgTextsStep(format);
      ghost var next := AfterArg(format);
      Assoc(out, Out(handlers, Adv(format, 1), true, true), ArgsOut(handlers, next));
      format := Adv(format, 1);
      var p := format;
      PrintInterfaceX(true);
      var q := format;
      arg := p[..|p| - |q|];
      if q != "" {
        format := Adv(q, 1);
      }
      assert format == next;
    }

    /** Consuming all arguments. */
    method SkipArgs()
      requires depth > 0 && ScanArgs(format).At?
      modifies this
      ensures depth == old(depth) && format == Adv(old(format), ScanArgs(old(format)).n)
      ensures out == old(out) + ArgsOut(handlers, old(format))
      decreases |format|, 7
    {
      hide Out, ArgsOut, ScanArgs, Adv;
      ghost var start := format;
      ghost var done: nat := 0;
      Whole(start);
      while format != "" && format[0] == OPEN
        invariant depth == old(depth) && Tail(format, start, done)
        invariant ScanArgs(format).At? && ScanArgs(start) == Plus(done, ScanArgs(format))
        invariant out + ArgsOut(handlers, format) == old(out) + ArgsOut(handlers, start)
        decreases |format|
      {
        hide Tail;
        ghost var here, n := format, 0;
        var arg;
        arg, n := TakeArg();
        TailTail(format, here, start, n, done);
        done := done + n;
      }
      NoArgsLeft(handlers, format);
      NothingAfter(out, ArgsOut(handlers, format));
    }

    /** Taking all arguments. */
    method TakeArgs() returns (args: seq<string>)
      requires depth > 0 && ScanArgs(format).At?
      modifies this
      ensures depth == old(depth) && format == Adv(old(format), ScanArgs(old(format)).n)
      ensures args == ArgTexts(old(format)) && out == old(out) + ArgsOut(handlers, old(format))
      decreases |format|, 7
    {
      hide Out, ArgsOut, ScanArgs, Adv, ArgTexts;
      ghost var start := format;
      ghost var done: nat := 0;
      args := [];
      Whole(start);
      while format != "" && format[0] == OPEN
        invariant depth == old(depth) && Tail(format, start, done)
        invariant ScanArgs(format).At? && ScanArgs(start) == Plus(done, ScanArgs(format))
        invariant args + ArgTexts(format) == ArgTexts(start)
        invariant out + ArgsOut(handlers, format) == old(out) + ArgsOut(handlers, start)
        decreases |format|
      {
        hide Tail;
        ghost var here, n := format, 0;
        var arg;
        arg, n := TakeArg();
        TailTail(format, here, start, n, done);
        Assoc(args, [arg], ArgTexts(format));
        args := args + [arg];
        done := done + n;
      }
      NoArgsLeft(handlers, format);
      NothingAfter(out, ArgsOut(handlers, format));
      NothingAfter(args, ArgTexts(format));
    }

    /** A substitution, `p` being past its opening brace. */
    method Substitute(p: string, quiet: bool) returns (rest: string)
      requires depth > 0 && Subst([DOLLAR, OPEN] + p).At?
      modifies this
      ensures depth == old(depth)
      ensures var s := [DOLLAR, OPEN] + p;
              rest == Adv(s, Subst(s).n) && out == old(out) + SubstOut(handlers, s, quiet)
      decreases |p| + 2, 2
    {
      ghost var s := [DOLLAR, OPEN] + p;
      var k := StrChr(p, CLOSE);
      assert Adv(s, 2) == p;
      if k == |p| {
        PutString([DOLLAR, OPEN] + p);
        return "";
      }
      var id := p[..k];
      format := Adv(p, k + 1);
      ghost var start := format;
      SubstParts(handlers, s, k, id, format, quiet);
      hide Out, ArgsOut, CallOut, ArgTexts, ScanArgs, SubstOut, Subst, Scan;
      if quiet {
        SkipArgs();
      } else {
        var args := TakeArgs();
        rest := format;
        ArgsRescan(start);
        Assoc(old(out), ArgsOut(handlers, start), CallOut(handlers, id, args, |s|));
        FormatHandler(id, args, |s|);
        format := rest;
      }
      rest := format;
    }

    /** The text up to the next '$' or the end. */
    method EchoText(p: string, quiet: bool) returns (q: string, ghost n: nat)
      modifies this`out
      ensures Tail(q, p, n) && (Stops(q, depth > 1) || q[0] == DOLLAR)
      ensures Scan(p, depth > 1) == Plus(n, Scan(q, depth > 1))
      ensures out + Out(handlers, q, depth > 1, quiet) == old(out) + Out(handlers, p, depth > 1, quiet)
    {
      q, n := p, 0;
      while !(q == "" || q[0] == DOLLAR || (depth > 1 && q[0] == CLOSE))
        invariant Tail(q, p, n)
        invariant Scan(p, depth > 1) == Plus(n, Scan(q, depth > 1))
        invariant out + Out(handlers, q, depth > 1, quiet) == old(out) + Out(handlers, p, depth > 1, quiet)
        decreases |q|
      {
        ScanStep(q, depth > 1);
        OutStep(handlers, q, depth > 1, quiet);
        TailStep(q, p, n, 1);
        hide Scan, Out, Tail, Adv;
        Assoc(out, Echo(quiet, [q[0]]), Out(handlers, Adv(q, 1), depth > 1, quiet));
        assert out + [] == out;
        if !quiet {
          PutString([q[0]]);
        }
        q, n := Adv(q, 1), n + 1;
      }
    }

    /** '$' and a character other than an opening brace. */
    method Escape(c: char, quiet: bool)
      modifies this`out
      ensures out == old(out) + Echo(quiet, Escaped(c))
    {
      assert out + [] == out;
      if !quiet {
        Assoc(out, [Put(DOLLAR)], [Put(c)]);
        if c != DOLLAR && c != CLOSE {
          out := out + [Put(DOLLAR)];
        }
        out := out + [Put(c)];
        assert Puts([c]) == [Put(c)] && Puts([DOLLAR, c]) == [Put(DOLLAR)] + [Put(c)];
      }
    }

    /** What starts with '$'. */
    method Dollar(s: string, quiet: bool) returns (p: string, ghost n: nat)
      requires depth > 0 && s != "" && s[0] == DOLLAR && Scan(s, depth > 1).At?
      modifies this
      ensures depth == old(depth) && n > 0 && Tail(p, s, n)
      ensures Scan(s, depth > 1) == Plus(n, Scan(p, depth > 1))
      ensures out + Out(handlers, p, depth > 1, quiet) == old(out) + Out(handlers, s, depth > 1, quiet)
      decreases |s|, 3
    {
      ghost var nested := depth > 1;
      hide Scan, Out, Subst, SubstOut, Escaped, Echo;
      ScanStep(s, nested);
      OutStep(handlers, s, nested, quiet);
      Skip(s, 1, 1);
      p := Adv(s, 1);
      assert p[0] == s[1];
      if p[0] != OPEN {
        n := 2;
        Assoc(out, Echo(quiet, Escaped(p[0])), Out(handlers, Adv(s, n), nested, quiet));
        Escape(p[0], quiet);
        p := Adv(p, 1);
      } else {
        n := Subst(s).n;
        p := Adv(p, 1);
        assert [DOLLAR, OPEN] + p == s;
        hide Adv;
        Assoc(out, SubstOut(handlers, s, quiet), Out(handlers, Adv(s, n), nested, quiet));
        p := Substitute(p, quiet);
      }
    }

    /** Text up to a '$' and what starts there. The scan is over when there is
        no '$'. */
    method Next(s: string, quiet: bool) returns (p: string, ghost n: nat)
      requires depth > 0 && !Stops(s, depth > 1) && Scan(s, depth > 1).At?
      modifies this
      ensures depth == old(depth) && n > 0 && Tail(p, s, n)
      ensures Scan(s, depth > 1) == Plus(n, Scan(p, depth > 1))
      ensures out + Out(handlers, p, depth > 1, quiet) == old(out) + Out(handlers, s, depth > 1, quiet)
      decreases |s|, 4
    {
      hide Scan, Out, Tail;
      p, n := EchoText(s, quiet);
      ghost var here := p;
      Whole(s);
      TailTail(p, s, s, n, 0);
      if p == "" || p[0] != DOLLAR {
        return;
      }
      ghost var m;
      p, m := Dollar(p, quiet);
      TailTail(p, here, s, m, n);
      n := n + m;
    }

    /** print_interfaceX */
    method PrintInterfaceX(quiet: bool)
      requires Scan(format, depth > 0).At?
      modifies this
      ensures depth == old(depth) && format == Adv(old(format), Scan(old(format), old(depth) > 0).n)
      ensures out == old(out) + Out(handlers, old(format), old(depth) > 0, quiet)
      decreases |format|, 5
    {
      var p := format;
      depth := depth + 1;
      hide Scan, Out, Adv;
      ghost var start, nested := format, depth > 1;
      ghost var done: nat := 0;
      Whole(start);
      while !(p == "" || (depth > 1 && p[0] == CLOSE))
        invariant depth == old(depth) + 1 && Tail(p, start, done)
        invariant Scan(p, nested).At? && Scan(start, nested) == Plus(done, Scan(p, nested))
        invariant out + Out(handlers, p, nested, quiet) == old(out) + Out(handlers, start, nested, quiet)
        decreases |p|
      {
        hide Tail;
        ghost var here, n := p, 0;
        p, n := Next(p, quiet);
        TailTail(p, here, start, n, done);
        done := done + n;
      }
      NothingLeft(handlers, p, nested, quiet);
      NothingAfter(out, Out(handlers, p, nested, quiet));
      format := p;
      depth := depth - 1;
    }
  }

  /** strchr */
  method StrChr(s: string, c: char) returns (k: nat)
    ensures k == IndexOf(s, c)
  {
    k := 0;
    while k < |s| && s[k] != c
      invariant k <= |s| && c !in s[..k]
    {
      assert s[..k + 1] == s[..k] + [s[k]];
      k := k + 1;
    }
    IndexIsFirst(s, c, k);
  }

  // ---------------------------------------------------------------------
  // An extracted argument is scanned to its end

  lemma {:induction false} IndexIsFirst(s: string, c: char, k: nat)
    requires k <= |s| && (k < |s| ==> s[k] == c) && c !in s[..k]
    ensures IndexOf(s, c) == k
    decreases |s|
  {
    if k > 0 {
      assert s[0] == s[..k][0];
      assert Adv(s, 1)[..k - 1] == s[..k][1..];
      IndexIsFirst(Adv(s, 1), c, k - 1);
    }
  }

  lemma {:induction false} SameIndex(b: string, q: string, c: char)
    requires IndexOf(b + q, c) < |b|
    ensures IndexOf(b, c) == IndexOf(b + q, c)
    decreases |b|
  {
    if b != "" && b[0] != c {
      Drop(b, q, 1);
      SameIndex(Adv(b, 1), q, c);
    }
  }

  lemma ScanStep(s: string, nested: bool)
    requires s != "" && !Stops(s, nested)
    ensures s[0] != DOLLAR ==> Scan(s, nested) == Plus(1, Scan(Adv(s, 1), nested))
    ensures s[0] == DOLLAR && |s| == 1 ==> Scan(s, nested) == Overrun
    ensures s[0] == DOLLAR && |s| > 1 && s[1] != OPEN ==> Scan(s, nested) == Plus(2, Scan(Adv(s, 2), nested))
    ensures s[0] == DOLLAR && |s| > 1 && s[1] == OPEN ==>
              Scan(s, nested) == if Subst(s).Overrun? then Overrun
                                 else Plus(Subst(s).n, Scan(Adv(s, Subst(s).n), nested))
  {
  }

  lemma Drop(b: string, q: string, n: nat)
    requires n <= |b|
    ensures Adv(b + q, n) == Adv(b, n) + q
  {
  }

  /** What follows the place where a scan stops plays no part in it. */
  lemma {:induction false} ScanCut(b: string, q: string)
    requires Scan(b + q, true).At? && Scan(b + q, true).n <= |b|
    ensures Scan(b, true) == Scan(b + q, true)
    decreases |b|, 1
  {
    if b != "" && !Stops(b, true) {
      ScanStep(b + q, true);
      ScanStep(b, true);
      hide Scan, Subst, Stops, Adv;
      if b[0] != DOLLAR {
        Drop(b, q, 1);
        ScanCut(Adv(b, 1), q);
      } else if |b| > 1 && b[1] == OPEN {
        SubstCut(b, q);
        Drop(b, q, Subst(b).n);
        ScanCut(Adv(b, Subst(b).n), q);
      } else if |b| > 1 {
        Drop(b, q, 2);
        ScanCut(Adv(b, 2), q);
      } else {
        DollarAlone(b, q);
      }
    }
  }

  lemma DollarAlone(b: string, q: string)
    requires |b| == 1 && b[0] == DOLLAR && Scan(b + q, true).At?
    ensures Scan(b + q, true).n > 1
  {
  }

  lemma SubstCut(b: string, q: string)
    requires |b| > 1 && Subst(b + q).At? && Subst(b + q).n <= |b|
    ensures Subst(b) == Subst(b + q)
    decreases |b|, 0
  {
    hide Scan, IndexOf, ScanArgs, Adv, Subst;
    var k := IndexOf(Adv(b + q, 2), CLOSE);
    SubstIs(b + q);
    if k == |b + q| - 2 {
      NothingAfter(b, q);
    } else {
      Drop(b, q, 2);
      Drop(b, q, k + 3);
      SameIndex(Adv(b, 2), q, CLOSE);
      SubstIs(b);
      ArgsCut(Adv(b, k + 3), q);
    }
  }

  lemma SubstIs(s: string)
    requires |s| > 1
    ensures var k := IndexOf(Adv(s, 2), CLOSE);
            Subst(s) == if k == |s| - 2 then At(|s|) else Plus(k + 3, ScanArgs(Adv(s, k + 3)))
  {
    hide Adv, IndexOf, ScanArgs;
  }

  lemma ArgsStep(s: string)
    requires s != "" && s[0] == OPEN
    ensures ScanArg(Adv(s, 1)).Overrun? ==> ScanArgs(s) == Overrun
    ensures ScanArg(Adv(s, 1)).At? ==> ScanArgs(s) == Plus(1 + ScanArg(Adv(s, 1)).n, ScanArgs(AfterArg(s)))
  {
    hide ScanArg, AfterArg, Adv, Scan, Plus, IndexOf;
  }

  lemma ArgStarts(s: string)
    requires s != "" && s[0] == OPEN && ScanArgs(s).At?
    ensures ScanArg(Adv(s, 1)).At? && ScanArgs(AfterArg(s)).At?
    ensures ScanArgs(s) == Plus(1 + ScanArg(Adv(s, 1)).n, ScanArgs(AfterArg(s)))
  {
    hide ScanArg, ScanArgs, AfterArg, Adv, Scan;
    ArgsStep(s);
  }

  lemma NoArgsThere(s: string)
    requires s == "" || s[0] != OPEN
    ensures ScanArgs(s) == At(0)
  {
  }

  lemma {:induction false} ArgsCut(b: string, q: string)
    requires ScanArgs(b + q).At? && ScanArgs(b + q).n <= |b|
    ensures ScanArgs(b) == ScanArgs(b + q)
    decreases |b|, 0
  {
    hide Scan, ScanArg, ScanArgs, Adv, AfterArg;
    if b == "" || b[0] != OPEN {
      NoArgsThere(b);
      if b != "" {
        NoArgsThere(b + q);
      }
    } else {
      ArgStarts(b + q);
      Drop(b, q, 1);
      ArgCut(Adv(b, 1), q);
      var n := ScanArg(Adv(b, 1)).n;
      ArgsStep(b);
      Drop(b, q, 1 + n);
      AfterArgAdv(b);
      AfterArgAdv(b + q);
      ArgsCut(Adv(b, 1 + n), q);
    }
  }

  lemma AfterArgAdv(s: string)
    requires s != "" && ScanArg(Adv(s, 1)).At?
    ensures AfterArg(s) == Adv(s, 1 + ScanArg(Adv(s, 1)).n)
  {
  }

  lemma ArgCut(b: string, q: string)
    requires ScanArg(b + q).At? && ScanArg(b + q).n <= |b|
    ensures ScanArg(b) == ScanArg(b + q)
    decreases |b|, 2
  {
    hide Scan;
    ScanCut(b, q);
    if Scan(b, true).n == |b| {
      NothingAfter(b, q);
    }
  }

  /** Scanning an extracted argument again consumes all of it. */
  lemma RescanConsumesAll(s: string)
    requires Scan(s, true).At?
    ensures Scan(ArgText(s), true) == At(|ArgText(s)|)
  {
    var n := Scan(s, true).n;
    assert s == s[..n] + Adv(s, n);
    ScanCut(s[..n], Adv(s, n));
  }

  lemma {:induction false} ArgsRescan(s: string)
    requires ScanArgs(s).At?
    ensures forall a :: a in ArgTexts(s) ==> Scan(a, true) == At(|a|)
    decreases |s|
  {
    if s != "" && s[0] == OPEN {
      RescanConsumesAll(Adv(s, 1));
      ArgsRescan(AfterArg(s));
    }
  }

  // ---------------------------------------------------------------------
  // Well-formed templates

  /** A template: characters, '$' with a character other than an opening
      brace, and substitutions with a name and arguments. */
  datatype Template =
    | End
    | Literal(c: char, rest: Template)
    | Dollar(c: char, rest: Template)
    | Use(id: string, args: Args, rest: Template)

  datatype Args = NoArgs | Arg(text: Template, more: Args)

  function Print(t: Template): string {
    match t
    case End => ""
    case Literal(c, rest) => [c] + Print(rest)
    case Dollar(c, rest) => [DOLLAR, c] + Print(rest)
    case Use(id, args, rest) => [DOLLAR, OPEN] + (id + ([CLOSE] + (PrintArgs(args) + Print(rest))))
  }

  function PrintArgs(args: Args): string {
    match args
    case NoArgs => ""
    case Arg(text, more) => [OPEN] + (Print(text) + ([CLOSE] + PrintArgs(more)))
  }

  /** Literal characters do not scan as anything else, and what follows a
      substitution does not scan as one more argument. */
  predicate Good(t: Template, nested: bool) {
    match t
    case End => true
    case Literal(c, rest) => c != DOLLAR && (nested ==> c != CLOSE) && Good(rest, nested)
    case Dollar(c, rest) => c != OPEN && Good(rest, nested)
    case Use(id, args, rest) =>
      CLOSE !in id && GoodArgs(args) && !(rest.Literal? && rest.c == OPEN) && Good(rest, nested)
  }

  predicate GoodArgs(args: Args) {
    args.Arg? ==> Good(args.text, true) && GoodArgs(args.more)
  }

  function Texts(args: Args): seq<string> {
    match args
    case NoArgs => []
    case Arg(text, more) => [Print(text)] + Texts(more)
  }

  /** What a template means: its characters, and each handler called with its
      arguments' texts and followed by the arguments it expands. */
  function Render(h: Handlers, t: Template): seq<Event>
    decreases t
  {
    match t
    case End => []
    case Literal(c, rest) => Puts([c]) + Render(h, rest)
    case Dollar(c, rest) => Puts(Escaped(c)) + Render(h, rest)
    case Use(id, args, rest) =>
      CallRender(h, id, args) + Render(h, rest)
  }

  function CallRender(h: Handlers, id: string, args: Args): seq<Event>
    decreases args, 2
  {
    [Call(id, Texts(args))] + RenderArgs(h, h(id, Texts(args)), args)
  }

  function RenderArgs(h: Handlers, nrs: seq<nat>, args: Args): seq<Event>
    decreases args, 1, |nrs|
  {
    if nrs == [] then [] else RenderArg(h, nrs[0], args) + RenderArgs(h, nrs[1..], args)
  }

  function RenderArg(h: Handlers, nr: nat, args: Args): seq<Event>
    decreases args, 0
  {
    match args
    case NoArgs => []
    case Arg(text, more) => if nr == 0 then Render(h, text) else RenderArg(h, nr - 1, more)
  }

  /** Scanning the text `p` before `rest` stops at its end, prints nothing
      when quiet, and `events` otherwise. */
  predicate Yields(h: Handlers, p: string, nested: bool, rest: string, events: seq<Event>) {
    && Scan(p + rest, nested) == At(|p|)
    && Out(h, p + rest, nested, true) == []
    && Out(h, p + rest, nested, false) == events
  }

  /** Scanning the arguments `p` before `rest` finds `texts`. */
  predicate ArgsYield(h: Handlers, p: string, rest: string, texts: seq<string>) {
    && ScanArgs(p + rest) == At(|p|)
    && ArgTexts(p + rest) == texts
    && ArgsOut(h, p + rest) == []
  }

  lemma After(a: string, b: string)
    ensures Adv(a + b, |a|) == b
  {
  }

  lemma LiteralFirst(h: Handlers, c: char, p: string, nested: bool)
    requires c != DOLLAR && (nested ==> c != CLOSE)
    ensures Scan([c] + p, nested) == Plus(1, Scan(p, nested))
    ensures forall quiet :: Out(h, [c] + p, nested, quiet) == Echo(quiet, [c]) + Out(h, p, nested, quiet)
  {
    hide Scan, Out;
    var s := [c] + p;
    After([c], p);
    ScanStep(s, nested);
    OutStep(h, s, nested, true);
    OutStep(h, s, nested, false);
  }

  lemma LiteralYields(h: Handlers, c: char, p: string, nested: bool, rest: string, events: seq<Event>)
    requires Yields(h, p, nested, rest, events) && c != DOLLAR && (nested ==> c != CLOSE)
    ensures Yields(h, [c] + p, nested, rest, Puts([c]) + events)
  {
    hide Scan, Out;
    LiteralFirst(h, c, p + rest, nested);
    Assoc([c], p, rest);
  }

  lemma DollarFirst(h: Handlers, c: char, p: string, nested: bool)
    requires c != OPEN
    ensures Scan([DOLLAR, c] + p, nested) == Plus(2, Scan(p, nested))
    ensures forall quiet :: Out(h, [DOLLAR, c] + p, nested, quiet) == Echo(quiet, Escaped(c)) + Out(h, p, nested, quiet)
  {
    hide Scan, Out;
    var s := [DOLLAR, c] + p;
    After([DOLLAR, c], p);
    ScanStep(s, nested);
    OutStep(h, s, nested, true);
    OutStep(h, s, nested, false);
  }

  /** What the escapes print live: "$$" a dollar sign, "$}" a closing brace,
      and '$' with any other character but an opening brace itself. */
  lemma EscapesPrint(h: Handlers, c: char, rest: string, nested: bool)
    requires c != '{'
    ensures var shown := if c == '$' then [Put('$')] else if c == '}' then [Put('}')] else [Put('$'), Put(c)];
            Out(h, ['$', c] + rest, nested, false) == shown + Out(h, rest, nested, false)
    ensures Out(h, ['$', c] + rest, nested, true) == Out(h, rest, nested, true)
  {
    hide Out;
    DollarFirst(h, c, rest, nested);
    assert Puts(['$', c]) == [Put('$'), Put(c)] && Puts([c]) == [Put(c)];
    assert [] + Out(h, rest, nested, true) == Out(h, rest, nested, true);
  }

  /** Any other character prints itself live, and nothing when quiet. */
  lemma LiteralPrints(h: Handlers, c: char, rest: string, nested: bool)
    requires c != '$' && (nested ==> c != '}')
    ensures Out(h, [c] + rest, nested, false) == [Put(c)] + Out(h, rest, nested, false)
    ensures Out(h, [c] + rest, nested, true) == Out(h, rest, nested, true)
  {
    hide Out;
    LiteralFirst(h, c, rest, nested);
    assert Puts([c]) == [Put(c)];
    assert [] + Out(h, rest, nested, true) == Out(h, rest, nested, true);
  }

  lemma DollarYields(h: Handlers, c: char, p: string, nested: bool, rest: string, events: seq<Event>)
    requires Yields(h, p, nested, rest, events) && c != OPEN
    ensures Yields(h, [DOLLAR, c] + p, nested, rest, Puts(Escaped(c)) + events)
  {
    hide Scan, Out, Escaped;
    DollarFirst(h, c, p + rest, nested);
    Assoc([DOLLAR, c], p, rest);
  }

  /** One argument `a` in braces. */
  lemma ArgFirst(h: Handlers, a: string, next: string)
    requires Scan(a + ([CLOSE] + next), true) == At(|a|) && ScanArgs(next).At?
    ensures var s := [OPEN] + (a + ([CLOSE] + next));
            && ScanArgs(s) == Plus(|a| + 2, ScanArgs(next)) && ArgTexts(s) == [a] + ArgTexts(next)
            && ArgsOut(h, s) == Out(h, a + ([CLOSE] + next), true, true) + ArgsOut(h, next)
  {
    hide Out, ArgsOut, ArgTexts;
    var p := a + ([CLOSE] + next);
    var s := [OPEN] + p;
    After([OPEN], p);
    After(a, [CLOSE] + next);
    After([CLOSE], next);
    assert ArgText(p) == a;
    assert ScanArg(p) == At(|a| + 1);
    Skip(s, 1, |a|);
    Skip(s, 1 + |a|, 1);
    ArgsStep(s);
    ArgsOutStep(h, s);
    ArgTextsStep(s);
  }

  lemma ArgYields(h: Handlers, a: string, b: string, rest: string, events: seq<Event>, texts: seq<string>)
    requires Yields(h, a, true, [CLOSE] + (b + rest), events) && ArgsYield(h, b, rest, texts)
    ensures ArgsYield(h, [OPEN] + (a + ([CLOSE] + b)), rest, [a] + texts)
  {
    hide Scan, Out, ArgsOut, ArgTexts, ScanArgs;
    ArgFirst(h, a, b + rest);
    Assoc([CLOSE], b, rest);
    Assoc(a, [CLOSE] + b, rest);
    Assoc([OPEN], a + ([CLOSE] + b), rest);
  }

  /** The pieces of a printed substitution. */
  lemma UseParts(id: string, args: Args, tail: string) returns (s: string)
    requires CLOSE !in id
    ensures s == [DOLLAR, OPEN] + (id + ([CLOSE] + (PrintArgs(args) + tail)))
    ensures IndexOf(Adv(s, 2), CLOSE) == |id| < |s| - 2
    ensures Adv(s, 2)[..|id|] == id && Adv(s, |id| + 3) == PrintArgs(args) + tail
    ensures Adv(s, |id| + 3 + |PrintArgs(args)|) == tail
  {
    hide Adv, IndexOf, PrintArgs;
    var p := PrintArgs(args) + tail;
    s := [DOLLAR, OPEN] + (id + ([CLOSE] + p));
    After([DOLLAR, OPEN], id + ([CLOSE] + p));
    assert Adv(s, 2)[..|id|] == id;
    IndexIsFirst(Adv(s, 2), CLOSE, |id|);
    After(id, [CLOSE] + p);
    After([CLOSE], p);
    Skip(s, 2, |id|);
    Skip(s, 2 + |id|, 1);
    After(PrintArgs(args), tail);
    Skip(s, |id| + 3, |PrintArgs(args)|);
  }

  lemma UseYields(h: Handlers, id: string, args: Args, p: string, nested: bool, rest: string, events: seq<Event>)
    requires CLOSE !in id && GoodArgs(args)
    requires Yields(h, p, nested, rest, events) && ArgsYield(h, PrintArgs(args), p + rest, Texts(args))
    ensures Yields(h, [DOLLAR, OPEN] + (id + ([CLOSE] + (PrintArgs(args) + p))), nested, rest,
                   CallRender(h, id, args) + events)
    decreases args, 3
  {
    hide PrintArgs, CallRender, Scan, Out, GoodArgs, ArgsYield;
    UseFirst(h, id, args, p + rest, nested);
    SameText(id, PrintArgs(args), p, rest);
  }

  lemma UseFirst(h: Handlers, id: string, args: Args, tail: string, nested: bool)
    requires CLOSE !in id && GoodArgs(args) && ArgsYield(h, PrintArgs(args), tail, Texts(args))
    ensures var s := [DOLLAR, OPEN] + (id + ([CLOSE] + (PrintArgs(args) + tail)));
            && Scan(s, nested) == Plus(|id| + 3 + |PrintArgs(args)|, Scan(tail, nested))
            && Out(h, s, nested, true) == Out(h, tail, nested, true)
            && Out(h, s, nested, false) == CallRender(h, id, args) + Out(h, tail, nested, false)
    decreases args, 2
  {
    hide Scan, Out, SubstOut, Subst, Print, PrintArgs, Adv, CallRender, ArgsYield, GoodArgs;
    var s := UseParts(id, args, tail);
    assert s[0] == DOLLAR && s[1] == OPEN;
    UseOut(h, id, args, tail, s);
    ScanStep(s, nested);
    OutStep(h, s, nested, true);
    OutStep(h, s, nested, false);
  }

  lemma UseOut(h: Handlers, id: string, args: Args, tail: string, s: string)
    requires CLOSE !in id && GoodArgs(args) && ArgsYield(h, PrintArgs(args), tail, Texts(args))
    requires |s| > 1 && IndexOf(Adv(s, 2), CLOSE) == |id| < |s| - 2
    requires Adv(s, 2)[..|id|] == id && Adv(s, |id| + 3) == PrintArgs(args) + tail
    ensures Subst(s) == At(|id| + 3 + |PrintArgs(args)|)
    ensures SubstOut(h, s, true) == [] && SubstOut(h, s, false) == CallRender(h, id, args)
    decreases args, 1, 1 + |h(id, Texts(args))|
  {
    hide Scan, Out, ArgsOut, ArgTexts, ScanArgs, Adv, IndexOf, PrintArgs, RenderArgs, ExpandOut, Texts, GoodArgs;
    var p := Adv(s, |id| + 3);
    assert ArgTexts(p) == Texts(args) && ArgsOut(h, p) == [];
    ExpandIsRender(h, h(id, Texts(args)), args, |s|);
    assert CallOut(h, id, Texts(args), |s|) == CallRender(h, id, args);
  }

  lemma SameText(id: string, a: string, b: string, rest: string)
    ensures [DOLLAR, OPEN] + (id + ([CLOSE] + (a + b))) + rest == [DOLLAR, OPEN] + (id + ([CLOSE] + (a + (b + rest))))
  {
    Assoc(a, b, rest);
    Assoc([CLOSE], a + b, rest);
    Assoc(id, [CLOSE] + (a + b), rest);
    Assoc([DOLLAR, OPEN], id + ([CLOSE] + (a + b)), rest);
  }

  /** Every well-formed template, at the end of the text or before the brace
      that closes it. */
  lemma {:induction false} TemplateScanned(h: Handlers, t: Template, nested: bool, rest: string)
    requires Good(t, nested) && Stops(rest, nested)
    ensures Yields(h, Print(t), nested, rest, Render(h, t))
    decreases t, 1
  {
    match t
    case End => assert Print(t) + rest == rest;
    case Literal(c, more) =>
      TemplateScanned(h, more, nested, rest);
      LiteralYields(h, c, Print(more), nested, rest, Render(h, more));
    case Dollar(c, more) =>
      TemplateScanned(h, more, nested, rest);
      DollarYields(h, c, Print(more), nested, rest, Render(h, more));
    case Use(id, args, more) =>
      TemplateScanned(h, more, nested, rest);
      ArgsAreScanned(h, args, Print(more) + rest);
      UseYields(h, id, args, Print(more), nested, rest, Render(h, more));
  }

  lemma {:induction false} ArgsAreScanned(h: Handlers, args: Args, rest: string)
    requires GoodArgs(args) && (rest == "" || rest[0] != OPEN)
    ensures ArgsYield(h, PrintArgs(args), rest, Texts(args))
    decreases args, 1
  {
    match args
    case NoArgs => NoArgsLeft(h, rest); assert PrintArgs(args) + rest == rest;
    case Arg(text, more) =>
      TemplateScanned(h, text, true, [CLOSE] + (PrintArgs(more) + rest));
      ArgsAreScanned(h, more, rest);
      ArgYields(h, Print(text), PrintArgs(more), rest, Render(h, text), Texts(more));
  }

  lemma {:induction false} ExpandIsRender(h: Handlers, nrs: seq<nat>, args: Args, bound: nat)
    requires GoodArgs(args) && Shorter(Texts(args), bound)
    ensures ExpandOut(h, nrs, Texts(args), bound) == RenderArgs(h, nrs, args)
    decreases args, 1, |nrs|
  {
    if nrs != [] {
      ChosenIsRender(h, nrs[0], args);
      ExpandIsRender(h, nrs[1..], args, bound);
    }
  }

  lemma {:induction false} ChosenIsRender(h: Handlers, nr: nat, args: Args)
    requires GoodArgs(args)
    ensures RenderArg(h, nr, args) == if nr < |Texts(args)| then Out(h, Texts(args)[nr], true, false) else []
    decreases args, 0
  {
    match args
    case NoArgs =>
    case Arg(text, more) =>
      if nr == 0 {
        TemplateScanned(h, text, true, "");
        NothingAfter(Print(text), "");
      } else {
        ChosenIsRender(h, nr - 1, more);
      }
  }

  /** print_interface on a printed template: the whole text is consumed, a
      quiet scan prints nothing and a live one prints what the template
      means. */
  lemma TemplateRoundTrip(h: Handlers, t: Template)
    requires Good(t, false)
    ensures Scan(Print(t), false) == At(|Print(t)|)
    ensures Out(h, Print(t), false, true) == [] && Out(h, Print(t), false, false) == Render(h, t)
  {
    TemplateScanned(h, t, false, "");
    NothingAfter(Print(t), "");
  }

  /** A template of each kind of piece. */
  lemma TemplateExample() returns (t: Template)
    ensures Good(t, false) && Print(t) == "a$$${name}{x}$}"
  {
    var args, rest := Arg(Literal('x', End), NoArgs), Dollar('}', End);
    var use := Use("name", args, rest);
    t := Literal('a', Dollar('$', use));
    assert PrintArgs(args) == "{x}" by {
      assert Print(Literal('x', End)) == "x" && PrintArgs(NoArgs) == "";
    }
    assert Print(rest) == "$}";
    hide PrintArgs;
    assert Print(use) == "${name}{x}$}";
    assert Print(Dollar('$', use)) == "$$${name}{x}$}";
  }

  /** Without a closing brace a quiet scan is not silent. */
  lemma UnclosedIsPrinted(h: Handlers, p: string, nested: bool)
    requires CLOSE !in p
    ensures var s := [DOLLAR, OPEN] + p; Scan(s, nested) == At(|s|) && Out(h, s, nested, true) == Puts(s)
  {
    var s := [DOLLAR, OPEN] + p;
    After([DOLLAR, OPEN], p);
    assert p[..|p|] == p;
    IndexIsFirst(p, CLOSE, |p|);
    ScanStep(s, nested);
    OutStep(h, s, nested, true);
    assert Adv(s, |s|) == "";
    NothingAfter(Puts(s), Out(h, Adv(s, |s|), nested, true));
  }
}
