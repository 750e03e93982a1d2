/** Cutting a command line of the ftp client into arguments. */
module FtpTokens {
  import opened FirstSeen
  import opened Wrappers

  const MAX_ARGS := 20
  const NUL := '\0'
  const BACKSLASH := '\\'
  const QUOTE := '"'

  predicate Blank(c: char) {
    c == ' ' || c == '\t'
  }

  /** The characters that are a word of their own at the start of a line. */
  predicate Special(c: char) {
    c == '!' || c == '$'
  }

  // ---------------------------------------------------------------------
  // What a line means

  /** Where the scanner of a word is: in plain text, after a backslash, within
      quotes. */
  datatype State = Plain | Escaped | Quoted

  /** The text of the word that continues here, and the rest of the line. */
  datatype Word = Word(text: string, rest: string)

  function Cons(c: char, w: Word): Word {
    Word([c] + w.text, w.rest)
  }

  function Scan(st: State, s: string): (w: Word)
    ensures |w.text| + |w.rest| <= |s|
    ensures w.rest == "" || Blank(w.rest[0])
    decreases |s|
  {
    if s == "" then Word("", "")
    else match st
      case Plain =>
        if Blank(s[0]) then Word("", s)
        else if s[0] == BACKSLASH then Scan(Escaped, s[1..])
        else if s[0] == QUOTE then Scan(Quoted, s[1..])
        else Cons(s[0], Scan(Plain, s[1..]))
      case Escaped => Cons(s[0], Scan(Plain, s[1..]))
      case Quoted => if s[0] == QUOTE then Scan(Plain, s[1..]) else Cons(s[0], Scan(Quoted, s[1..]))
  }

  function SkipBlanks(s: string): (r: string)
    ensures |r| <= |s| && (r == "" || !Blank(r[0]))
  {
    if s != "" && Blank(s[0]) then SkipBlanks(s[1..]) else s
  }

  /** The next argument, if any, and the rest of the line. */
  function Slurp(first: bool, s: string): (Option<string>, string) {
    if first && s != "" && Special(s[0]) then (Some([s[0]]), s[1..])
    else
      var w := Scan(Plain, SkipBlanks(s));
      (if w.text == "" then None else Some(w.text), w.rest)
  }

  /** The arguments of a line, `n` at most. */
  function Args(first: bool, s: string, n: nat): seq<string>
    decreases n
  {
    if n == 0 then []
    else
      var (arg, rest) := Slurp(first, s);
      if arg.None? then [] else [arg.value] + Args(false, rest, n - 1)
  }

  // ---------------------------------------------------------------------
  // The scanner

  /** An argument: a one-character constant or a place in the buffer. */
  datatype Token = Constant(c: char) | InBuffer(at: nat) | Nothing

  /** The buffer holds the argument's text, ended by a NUL. */
  predicate Holds(buffer: seq<char>, t: Token, text: string) {
    match t
    case Constant(c) => text == [c]
    case InBuffer(at) => at + |text| < |buffer| && buffer[at..at + |text|] == text && buffer[at + |text|] == NUL
    case Nothing => false
  }

  predicate AllHeld(buffer: seq<char>, ts: seq<Token>, texts: seq<string>) {
    |ts| == |texts| && forall k :: 0 <= k < |ts| ==> Holds(buffer, ts[k], texts[k])
  }

  lemma HeldLength(buffer: seq<char>, ts: seq<Token>, texts: seq<string>)
    requires AllHeld(buffer, ts, texts)
    ensures |ts| == |texts|
  {
  }

  class Slicer {
    const line: string
    const argbuf: array<char>
    var stringbase: nat
    var argbase: nat
    var slrflag: int
    var altarg: Option<nat>
    var margv: seq<Token>

    /** The buffer is never filled faster than the line is read, a NUL at a
        blank or at the end being one ahead. */
    ghost predicate Valid()
      reads this
    {
      && argbuf.Length == |line| + 4 && stringbase <= |line| && 0 <= slrflag <= 2
      && argbase <= stringbase + 1
      && (stringbase < |line| && !Blank(line[stringbase]) ==> argbase <= stringbase)
    }

    /** A line and a buffer of any contents. */
    constructor (line: string)
      ensures Valid() && this.line == line && fresh(argbuf)
      ensures stringbase == 0 && argbase == 0 && slrflag == 0 && margv == [] && altarg == None
    {
      this.line := line;
      argbuf := new char[|line| + 4];
      stringbase, argbase, slrflag := 0, 0, 0;
      altarg, margv := None, [];
    }

    /** Nothing from the cursor on was written since the buffer was `was`. */
    ghost predicate Untouched(was: seq<char>)
      reads this`argbase, argbuf
    {
      |was| == argbuf.Length && forall i :: argbase <= i < |was| ==> argbuf[i] == was[i]
    }

    /** The states from S1 on: a word from `from` on is copied to `to`. */
    method ReadWord(from: nat, to: nat) returns (sb: nat, ap: nat)
      requires to <= from <= |line| && argbuf.Length == |line| + 4
      modifies argbuf
      ensures from <= sb <= |line| && to <= ap <= sb
      ensures Scan(Plain, line[from..]) == Word(argbuf[to..ap], line[sb..])
      ensures argbuf[..to] == old(argbuf[..to])
      ensures forall i :: ap <= i < argbuf.Length ==> argbuf[i] == old(argbuf[i])
    {
      hide Scan;
      sb, ap := from, to;
      var st := Plain;
      ghost var goal := Scan(Plain, line[from..]);
      assert argbuf[to..ap] + goal.text == goal.text;
      while sb < |line| && !(st == Plain && Blank(line[sb]))
        invariant from <= sb <= |line| && to <= ap <= sb
        invariant argbuf[..to] == old(argbuf[..to])
        invariant forall i :: ap <= i < argbuf.Length ==> argbuf[i] == old(argbuf[i])
        invariant goal == Word(argbuf[to..ap] + Scan(st, line[sb..]).text, Scan(st, line[sb..]).rest)
        decreases |line| - sb
      {
        ghost var before := argbuf[to..ap];
        ScanStep(st, line[sb..]);
        assert line[sb..][1..] == line[sb + 1..];
        if st == Plain && line[sb] == BACKSLASH {
          st := Escaped;
        } else if st == Plain && line[sb] == QUOTE {
          st := Quoted;
        } else if st == Quoted && line[sb] == QUOTE {
          st := Plain;
        } else {
          argbuf[ap] := line[sb];
          ap := ap + 1;
          assert argbuf[to..ap] == before + [line[sb]];
          st := if st == Escaped then Plain else st;
          Assoc(before, [line[sb]], Scan(st, line[sb + 1..]).text);
        }
        sb := sb + 1;
      }
      ScanEnds(st, line[sb..]);
      assert argbuf[to..ap] + "" == argbuf[to..ap];
    }

    /** State S0: past the blanks. */
    method PastBlanks(from: nat) returns (sb: nat)
      requires from <= |line|
      ensures from <= sb <= |line| && line[sb..] == SkipBlanks(line[from..])
      ensures sb > from || from == |line| || !Blank(line[from])
    {
      sb := from;
      while sb < |line| && Blank(line[sb])
        invariant from <= sb <= |line| && SkipBlanks(line[sb..]) == SkipBlanks(line[from..])
      {
        assert line[sb..][1..] == line[sb + 1..];
        sb := sb + 1;
      }
    }

    /** slurpstring */
    method SlurpString() returns (t: Token)
      requires Valid()
      modifies this`stringbase, this`argbase, this`slrflag, this`altarg, argbuf
      ensures Valid() && slrflag > 0 && argbase >= old(argbase)
      ensures argbuf[..old(argbase)] == old(argbuf[..argbase]) && Untouched(old(argbuf[..]))
      ensures Slurped(Slurp(old(slrflag) == 0, old(line[stringbase..])), t)
      ensures old(slrflag) == 1 ==> altarg == Position(line, SkipBlanks(old(line[stringbase..])))
      ensures old(slrflag) == 2 ==> altarg == old(altarg)
      ensures old(slrflag) > 0 ==> slrflag == 2
      ensures old(slrflag) == 0 && t != Nothing ==> slrflag == 1
    {
      hide Scan, Slurp, SkipBlanks, Position, Slicer.Slurped;
      var sb := stringbase;
      SlurpIs(slrflag == 0, line[sb..]);
      AtPosition(sb);
      if sb < |line| && Special(line[sb]) {
        if slrflag == 0 {
          slrflag := 1;
          stringbase := stringbase + 1;
          t := Constant(line[sb]);
          SlurpedConstant(sb);
          return;
        }
        if slrflag == 1 {
          slrflag := 2;
          altarg := Some(stringbase);
        }
      }
      sb := PastBlanks(sb);
      AtPosition(sb);
      if sb < |line| {
        if slrflag == 0 {
          slrflag := 1;
        } else if slrflag == 1 {
          slrflag := 2;
          altarg := Some(sb);
        }
      }
      t := Finish(sb);
      SlurpedIs(Scan(Plain, line[sb..]), t);
      if sb == |line| {
        ScanEnds(Plain, line[sb..]);
      }
    }

    lemma SlurpedIs(w: Word, t: Token)
      requires stringbase <= |line| && argbase <= argbuf.Length
      requires Slurped((if w.text == "" then None else Some(w.text), w.rest), t)
      ensures w.text == "" <==> t == Nothing
    {
    }

    lemma SlurpedConstant(sb: nat)
      requires sb < |line| && stringbase == sb + 1 && argbase <= argbuf.Length
      ensures Slurped((Some([line[sb]]), line[sb..][1..]), Constant(line[sb]))
    {
    }

    lemma AtPosition(sb: nat)
      requires sb <= |line|
      ensures Position(line, line[sb..]) == if sb < |line| then Some(sb) else None
      ensures sb < |line| && !Blank(line[sb]) ==> SkipBlanks(line[sb..]) == line[sb..]
      ensures sb == |line| ==> SkipBlanks(line[sb..]) == line[sb..]
    {
    }

    /** The word from `sb` on, and OUT. */
    method Finish(from: nat) returns (t: Token)
      requires Valid() && stringbase <= from <= |line| && (from == |line| || !Blank(line[from]))
      requires from > stringbase || from == |line| || !Blank(line[stringbase])
      modifies this`stringbase, this`argbase, this`slrflag, this`altarg, argbuf
      ensures Valid() && argbase >= old(argbase)
      ensures argbuf[..old(argbase)] == old(argbuf[..argbase]) && Untouched(old(argbuf[..]))
      ensures var w := Scan(Plain, line[from..]);
              Slurped((if w.text == "" then None else Some(w.text), w.rest), t)
      ensures t != Nothing ==> slrflag == old(slrflag)
      ensures t == Nothing ==> slrflag == (if old(slrflag) == 2 then 2 else old(slrflag) + 1)
      ensures altarg == if t == Nothing && old(slrflag) == 1 then None else old(altarg)
    {
      var sb, ap := from, argbase;
      assert from == |line| ==> line[from..] == "" && argbuf[argbase..ap] == "";
      if from < |line| {
        sb, ap := ReadWord(from, argbase);
      }
      ghost var text := argbuf[argbase..ap];
      hide Scan;
      t := Nothing;
      if ap > argbase {
        t := InBuffer(argbase);
        argbuf[ap] := NUL;
        assert argbuf[argbase..ap] == text;
        ap := ap + 1;
      } else if slrflag == 0 {
        slrflag := 1;
      } else if slrflag == 1 {
        slrflag := 2;
        altarg := None;
      }
      argbase := ap;
      stringbase := sb;
    }

    /** The buffer holds the arguments found so far. */
    ghost predicate Held(texts: seq<string>)
      reads this, argbuf
    {
      argbase <= argbuf.Length && AllHeld(argbuf[..argbase], margv, texts)
    }

    /** After `k` calls that found an argument and perhaps one that did not,
        altarg stands before the second argument. */
    ghost predicate Alternative(k: nat, more: bool)
      reads this
    {
      AltIs(line, k, more, slrflag, stringbase, altarg)
    }

    /** One argument more, if there is one. */
    method NextArg(ghost goal: seq<string>, ghost texts: seq<string>) returns (more: bool, ghost texts': seq<string>)
      requires Valid() && Held(texts) && Alternative(|texts|, true) && |texts| < MAX_ARGS
      requires Left(goal, texts, true, slrflag == 0, line[stringbase..], MAX_ARGS - |texts|)
      modifies this, argbuf
      ensures Valid() && stringbase <= |line| && Held(texts') && Alternative(|texts'|, more)
      ensures argbase >= old(argbase) && Untouched(old(argbuf[..]))
      ensures |margv| == |texts'| == |texts| + if more then 1 else 0
      ensures Left(goal, texts', more, slrflag == 0, line[stringbase..], MAX_ARGS - |texts'|)
    {
      hide Slurp, SkipBlanks, Holds, AllHeld, Position, Left, AltIs, Slicer.Untouched;
      ghost var held := argbuf[..argbase];
      ghost var r := Slurp(slrflag == 0, line[stringbase..]);
      HeldLength(held, margv, texts);
      GoalStep(goal, texts, slrflag == 0, line[stringbase..], MAX_ARGS - |texts|);
      ghost var flag0, sb0, alt0 := slrflag, stringbase, altarg;
      var t := SlurpString();
      StillHeld(held, argbuf[..argbase], margv, texts);
      AltStep(line, |texts|, flag0, sb0, alt0, t != Nothing, slrflag, stringbase, altarg);
      more, texts' := t != Nothing, texts;
      if more {
        OneMoreHeld(argbuf[..argbase], margv, texts, t, r.0.value);
        margv := margv + [t];
        texts' := texts + [r.0.value];
        HeldLength(argbuf[..argbase], margv, texts');
      }
    }

    /** makeargv: at most one byte more than the line has is written. */
    method MakeArgv()
      requires argbuf.Length == |line| + 4
      modifies this, argbuf
      ensures argbase <= |line| + 1 && Untouched(old(argbuf[..]))
      ensures Held(Args(true, line, 20))
      ensures margv != [] ==> altarg == Position(line, SkipBlanks(Slurp(true, line).1))
    {
      hide Slurp, SkipBlanks, Held, Args, Position, Alternative, Left, Slicer.Valid, Slicer.Untouched;
      margv := [];
      stringbase, argbase, slrflag := 0, 0, 0;
      ghost var texts: seq<string> := [];
      ghost var goal := Args(true, line, MAX_ARGS);
      Start();
      var more := true;
      while more && |margv| < MAX_ARGS
        invariant Valid() && stringbase <= |line| && Held(texts) && |texts| == |margv| <= MAX_ARGS
        invariant Alternative(|texts|, more) && Untouched(old(argbuf[..]))
        invariant Left(goal, texts, more, slrflag == 0, line[stringbase..], MAX_ARGS - |texts|)
        decreases more, MAX_ARGS - |margv|
      {
        ghost var now, base := argbuf[..], argbase;
        UntouchedIs(old(argbuf[..]));
        more, texts := NextArg(goal, texts);
        StillUntouched(old(argbuf[..]), now, base);
      }
      NoneLeft(goal, texts, more, slrflag == 0, line[stringbase..], MAX_ARGS - |texts|);
      if |texts| > 0 {
        Settled(|texts|, more);
      }
      InBounds();
    }

    lemma UntouchedIs(was: seq<char>)
      requires Untouched(was)
      ensures |was| == argbuf.Length && forall i :: argbase <= i < |was| ==> argbuf[..][i] == was[i]
    {
    }

    lemma StillUntouched(was: seq<char>, now: seq<char>, base: nat)
      requires Untouched(now) && base <= argbase && |was| == |now| && forall i :: base <= i < |was| ==> now[i] == was[i]
      ensures Untouched(was)
    {
    }

    lemma Start()
      requires argbuf.Length == |line| + 4 && stringbase == 0 && argbase == 0 && slrflag == 0 && margv == []
      ensures Valid() && Untouched(argbuf[..]) && Held([]) && Alternative(0, true) && stringbase <= |line|
      ensures Left(Args(true, line, MAX_ARGS), [], true, slrflag == 0, line[stringbase..], MAX_ARGS)
    {
      hide Args, Slurp, SkipBlanks;
      assert line[0..] == line;
    }

    lemma InBounds()
      requires Valid()
      ensures argbase <= |line| + 1
    {
    }

    lemma Settled(k: nat, more: bool)
      requires Alternative(k, more) && k > 0 && (more ==> k > 1)
      ensures altarg == Position(line, SkipBlanks(Slurp(true, line).1))
    {
    }

    /** The token is where the argument says, and what is left is left. */
    ghost predicate Slurped(s: (Option<string>, string), t: Token)
      reads this, argbuf
      requires stringbase <= |line| && argbase <= argbuf.Length
    {
      && s.1 == line[stringbase..]
      && (s.0.None? <==> t == Nothing)
      && (s.0.Some? ==> Holds(argbuf[..argbase], t, s.0.value))
    }
  }

  ghost predicate AltIs(line: string, k: nat, more: bool, slrflag: int, stringbase: nat, altarg: Option<nat>) {
    var rest := Slurp(true, line).1;
    && (k == 0 && more ==> slrflag == 0 && stringbase == 0)
    && (k == 1 && more ==> slrflag == 1 && stringbase <= |line| && line[stringbase..] == rest)
    && (k > 1 || (k == 1 && !more) ==> slrflag == 2 && altarg == Position(line, SkipBlanks(rest)))
  }

  lemma AltStep(line: string, k: nat, flag: int, sb: nat, alt: Option<nat>, found: bool, flag': int, sb': nat,
                alt': Option<nat>)
    requires AltIs(line, k, true, flag, sb, alt) && sb <= |line| && sb' <= |line| && 0 <= flag' <= 2
    requires Slurp(flag == 0, line[sb..]).1 == line[sb'..]
    requires flag == 1 ==> alt' == Position(line, SkipBlanks(line[sb..]))
    requires (flag == 2 ==> alt' == alt) && (flag > 0 ==> flag' == 2) && (flag == 0 && found ==> flag' == 1)
    ensures AltIs(line, if found then k + 1 else k, found, flag', sb', alt')
  {
    hide Slurp, SkipBlanks, Position;
    assert line[0..] == line;
  }

  /** `goal` is what was found and what is still to be found. */
  ghost predicate Left(goal: seq<string>, texts: seq<string>, more: bool, first: bool, s: string, n: nat) {
    goal == texts + if more then Args(first, s, n) else []
  }

  lemma GoalStep(goal: seq<string>, texts: seq<string>, first: bool, s: string, n: nat)
    requires n > 0 && Left(goal, texts, true, first, s, n)
    ensures var (arg, rest) := Slurp(first, s);
            if arg.None? then Left(goal, texts, false, false, rest, n)
            else Left(goal, texts + [arg.value], true, false, rest, n - 1)
  {
    hide Slurp;
  }

  lemma NoneLeft(goal: seq<string>, texts: seq<string>, more: bool, first: bool, s: string, n: nat)
    requires Left(goal, texts, more, first, s, n) && (more ==> n == 0)
    ensures texts == goal
  {
  }

  /** Storing more does not touch what is held. */
  lemma StillHeld(held: seq<char>, buffer: seq<char>, ts: seq<Token>, texts: seq<string>)
    requires |held| <= |buffer| && buffer[..|held|] == held && AllHeld(held, ts, texts)
    ensures AllHeld(buffer, ts, texts)
  {
    forall k | 0 <= k < |ts| ensures Holds(buffer, ts[k], texts[k]) {
      if ts[k].InBuffer? {
        var at, n := ts[k].at, |texts[k]|;
        assert forall i :: at <= i <= at + n ==> buffer[i] == buffer[..|held|][i];
        assert buffer[at..at + n] == held[at..at + n];
      }
    }
  }

  lemma OneMoreHeld(buffer: seq<char>, ts: seq<Token>, texts: seq<string>, t: Token, text: string)
    requires AllHeld(buffer, ts, texts) && Holds(buffer, t, text)
    ensures AllHeld(buffer, ts + [t], texts + [text])
  {
    hide Holds;
  }

  /** Where a rest of the line stands, if it is not empty. */
  function Position(line: string, rest: string): Option<nat>
    requires |rest| <= |line|
  {
    if rest == "" then None else Some(|line| - |rest|)
  }

  lemma SlurpIs(first: bool, s: string)
    ensures first && s != "" && Special(s[0]) ==> Slurp(first, s) == (Some([s[0]]), s[1..])
    ensures !(first && s != "" && Special(s[0])) ==>
              var w := Scan(Plain, SkipBlanks(s));
              Slurp(first, s) == (if w.text == "" then None else Some(w.text), w.rest)
  {
    hide Scan, SkipBlanks;
  }

  lemma ScanEnds(st: State, s: string)
    requires s == "" || (st == Plain && Blank(s[0]))
    ensures Scan(st, s) == Word("", s)
  {
  }

  lemma ScanStep(st: State, s: string)
    requires s != "" && !(st == Plain && Blank(s[0]))
    ensures Scan(st, s) ==
            if st == Plain && s[0] == BACKSLASH then Scan(Escaped, s[1..])
            else if st == Plain && s[0] == QUOTE then Scan(Quoted, s[1..])
            else if st == Quoted && s[0] == QUOTE then Scan(Plain, s[1..])
            else Cons(s[0], Scan(if st == Escaped then Plain else st, s[1..]))
  {
  }

  // ---------------------------------------------------------------------
  // Writing a line

  /** The ways to write part of a word: a bare character, a character after a
      backslash, a quoted text. */
  datatype Piece = Bare(c: char) | Escape(c: char) | Quote(text: string)

  predicate GoodPiece(p: Piece) {
    match p
    case Bare(c) => !Blank(c) && c != BACKSLASH && c != QUOTE
    case Escape(c) => true
    case Quote(text) => QUOTE !in text
  }

  function Text(p: Piece): string {
    if p.Quote? then p.text else [p.c]
  }

  function Write(p: Piece): string {
    match p
    case Bare(c) => [c]
    case Escape(c) => [BACKSLASH, c]
    case Quote(text) => [QUOTE] + (text + [QUOTE])
  }

  function TextOf(ps: seq<Piece>): string {
    if ps == [] then "" else Text(ps[0]) + TextOf(ps[1..])
  }

  function WriteOf(ps: seq<Piece>): string {
    if ps == [] then "" else Write(ps[0]) + WriteOf(ps[1..])
  }

  function Prepend(a: string, w: Word): Word {
    Word(a + w.text, w.rest)
  }

  lemma {:induction false} QuotedScans(t: string, rest: string)
    requires QUOTE !in t
    ensures Scan(Quoted, t + ([QUOTE] + rest)) == Prepend(t, Scan(Plain, rest))
  {
    var s := t + ([QUOTE] + rest);
    if t == "" {
      assert s[1..] == rest;
    } else {
      QuotedScans(t[1..], rest);
      assert s[1..] == t[1..] + ([QUOTE] + rest);
      assert [t[0]] + t[1..] == t;
      Assoc([t[0]], t[1..], Scan(Plain, rest).text);
    }
  }

  lemma PieceScans(p: Piece, rest: string)
    requires GoodPiece(p)
    ensures Scan(Plain, Write(p) + rest) == Prepend(Text(p), Scan(Plain, rest))
  {
    var s := Write(p) + rest;
    match p
    case Bare(c) => assert s[1..] == rest;
    case Escape(c) =>
      assert s[1..] == [c] + rest && s[1..][1..] == rest;
    case Quote(text) =>
      assert s[1..] == text + ([QUOTE] + rest);
      QuotedScans(text, rest);
  }

  /** However a word is written, its text is read back. */
  lemma {:induction false} WordScans(ps: seq<Piece>, rest: string)
    requires (forall k :: 0 <= k < |ps| ==> GoodPiece(ps[k])) && (rest == "" || Blank(rest[0]))
    ensures Scan(Plain, WriteOf(ps) + rest) == Word(TextOf(ps), rest)
  {
    if ps == [] {
      assert WriteOf(ps) + rest == rest;
    } else {
      WordScans(ps[1..], rest);
      Assoc(Write(ps[0]), WriteOf(ps[1..]), rest);
      PieceScans(ps[0], WriteOf(ps[1..]) + rest);
    }
  }

  /** A word after some blanks. */
  datatype Item = Item(gap: string, word: seq<Piece>)

  predicate Gap(s: string) {
    forall k :: 0 <= k < |s| ==> Blank(s[k])
  }

  predicate GoodItem(i: Item) {
    Gap(i.gap) && (forall k :: 0 <= k < |i.word| ==> GoodPiece(i.word[k])) && TextOf(i.word) != ""
  }

  function Line(items: seq<Item>, trail: string): string {
    if items == [] then trail else items[0].gap + (WriteOf(items[0].word) + Line(items[1..], trail))
  }

  function Texts(items: seq<Item>): seq<string> {
    seq(|items|, k requires 0 <= k < |items| => TextOf(items[k].word))
  }

  /** Words are kept apart by blanks; a line does not start with a special
      character. */
  predicate GoodLine(items: seq<Item>, trail: string, first: bool) {
    && Gap(trail)
    && (forall k :: 0 <= k < |items| ==> GoodItem(items[k]))
    && (forall k :: 0 <= k < |items| && !(first && k == 0) ==> items[k].gap != "")
    && (first ==> Line(items, trail) == "" || !Special(Line(items, trail)[0]))
  }

  lemma {:induction false} SkipsGap(gap: string, rest: string)
    requires Gap(gap) && (rest == "" || !Blank(rest[0]))
    ensures SkipBlanks(gap + rest) == rest
  {
    if gap == "" {
      assert gap + rest == rest;
    } else {
      assert (gap + rest)[1..] == gap[1..] + rest;
      SkipsGap(gap[1..], rest);
    }
  }

  lemma WordStarts(ps: seq<Piece>, rest: string)
    requires TextOf(ps) != "" && forall k :: 0 <= k < |ps| ==> GoodPiece(ps[k])
    ensures WriteOf(ps) != "" && !Blank((WriteOf(ps) + rest)[0])
  {
    assert GoodPiece(ps[0]);
  }

  lemma ItemSlurps(i: Item, rest: string, first: bool)
    requires GoodItem(i) && (rest == "" || Blank(rest[0]))
    requires first ==> !Special((i.gap + (WriteOf(i.word) + rest))[0])
    ensures Slurp(first, i.gap + (WriteOf(i.word) + rest)) == (Some(TextOf(i.word)), rest)
  {
    WordStarts(i.word, rest);
    SkipsGap(i.gap, WriteOf(i.word) + rest);
    WordScans(i.word, rest);
    hide Scan, SkipBlanks, TextOf, WriteOf;
  }

  /** Every well-written line is cut into the texts of its words, or the first
      twenty of them. */
  lemma {:induction false} LineIsCut(items: seq<Item>, trail: string, first: bool, n: nat)
    requires GoodLine(items, trail, first)
    ensures Args(first, Line(items, trail), n) == Texts(items)[..if n < |items| then n else |items|]
    decreases |items|
  {
    hide GoodLine, GoodItem, Slurp, Line, TextOf, WriteOf, Args;
    if n == 0 || items == [] {
      NothingIsCut(items, trail, first, n);
    } else {
      var i, rest := items[0], Line(items[1..], trail);
      RestIsGood(items, trail, first);
      ItemSlurps(i, rest, first);
      LineIsCut(items[1..], trail, false, n - 1);
      assert Texts(items) == [TextOf(i.word)] + Texts(items[1..]);
      FirstOnes(TextOf(i.word), Texts(items[1..]), n);
      ArgsStep(first, Line(items, trail), n);
    }
  }

  lemma FirstOnes(t: string, ts: seq<string>, n: nat)
    requires n > 0
    ensures ([t] + ts)[..if n < 1 + |ts| then n else 1 + |ts|] == [t] + ts[..if n - 1 < |ts| then n - 1 else |ts|]
  {
  }

  lemma ArgsStep(first: bool, s: string, n: nat)
    requires n > 0 && Slurp(first, s).0.Some?
    ensures Args(first, s, n) == [Slurp(first, s).0.value] + Args(false, Slurp(first, s).1, n - 1)
  {
  }

  lemma NothingIsCut(items: seq<Item>, trail: string, first: bool, n: nat)
    requires GoodLine(items, trail, first) && (n == 0 || items == [])
    ensures Args(first, Line(items, trail), n) == []
  {
    if n > 0 {
      SkipsGap(trail, "");
      assert trail + "" == trail;
      assert Slurp(first, trail) == (None, "");
    }
  }

  lemma RestIsGood(items: seq<Item>, trail: string, first: bool)
    requires GoodLine(items, trail, first) && items != []
    ensures GoodLine(items[1..], trail, false) && GoodItem(items[0])
    ensures Line(items, trail) == items[0].gap + (WriteOf(items[0].word) + Line(items[1..], trail)) != ""
    ensures Line(items[1..], trail) == "" || Blank(Line(items[1..], trail)[0])
    ensures first ==> !Special(Line(items, trail)[0])
  {
    hide GoodItem;
    if |items| > 1 {
      assert items[1].gap != "";
      assert GoodItem(items[1]);
      GapIsBlank(items[1]);
    }
    assert GoodItem(items[0]);
    NotEmpty(items[0]);
  }

  lemma GapIsBlank(i: Item)
    requires GoodItem(i) && i.gap != ""
    ensures Blank(i.gap[0])
  {
  }

  lemma NotEmpty(i: Item)
    requires GoodItem(i)
    ensures WriteOf(i.word) != ""
  {
    WordStarts(i.word, "");
  }

  /** A leading special character is an argument of its own. */
  lemma SpecialIsCut(c: char, s: string, n: nat)
    requires (c == '!' || c == '$') && n > 0
    ensures Args(true, [c] + s, n) == [[c]] + Args(false, s, n - 1)
  {
    assert ([c] + s)[1..] == s;
  }

  // ---------------------------------------------------------------------
  // Escaping every character

  /** A token with a backslash before each character. */
  function Escapes(t: string): string {
    if t == "" then "" else [BACKSLASH, t[0]] + Escapes(t[1..])
  }

  /** Tokens joined with blanks. */
  function Joined(ts: seq<string>): string {
    if ts == [] then "" else if |ts| == 1 then Escapes(ts[0]) else Escapes(ts[0]) + (" " + Joined(ts[1..]))
  }

  function EscapedWord(t: string): seq<Piece> {
    seq(|t|, k requires 0 <= k < |t| => Escape(t[k]))
  }

  lemma {:induction false} EscapedWordIs(t: string)
    ensures WriteOf(EscapedWord(t)) == Escapes(t) && TextOf(EscapedWord(t)) == t
  {
    if t != "" {
      EscapedWordIs(t[1..]);
      assert EscapedWord(t)[1..] == EscapedWord(t[1..]);
      assert [t[0]] + t[1..] == t;
    }
  }

  function EscapedItems(ts: seq<string>, first: bool): seq<Item> {
    seq(|ts|, k requires 0 <= k < |ts| => Item(if first && k == 0 then "" else " ", EscapedWord(ts[k])))
  }

  lemma {:induction false} JoinedIsLine(ts: seq<string>, first: bool)
    requires ts != []
    ensures Line(EscapedItems(ts, first), "") == (if first then "" else " ") + Joined(ts)
  {
    var items := EscapedItems(ts, first);
    assert items[1..] == EscapedItems(ts[1..], false);
    EscapedWordIs(ts[0]);
    assert Escapes(ts[0]) + "" == Escapes(ts[0]);
    if |ts| > 1 {
      JoinedIsLine(ts[1..], false);
    }
  }

  /** For every list of 1 to 20 non-empty tokens, escaping each character and
      joining with blanks makes makeargv return exactly those tokens. */
  lemma EscapedTokensComeBack(ts: seq<string>)
    requires 1 <= |ts| <= 20 && forall k :: 0 <= k < |ts| ==> ts[k] != ""
    ensures Args(true, Joined(ts), 20) == ts
  {
    hide EscapedItems, Joined, Line, GoodLine, Args, Texts;
    var items := EscapedItems(ts, true);
    JoinedIsLine(ts, true);
    assert "" + Joined(ts) == Joined(ts);
    EscapedIsGood(ts);
    LineIsCut(items, "", true, MAX_ARGS);
    assert Texts(items)[..|items|] == Texts(items);
  }

  lemma EscapedIsGood(ts: seq<string>)
    requires ts != [] && forall k :: 0 <= k < |ts| ==> ts[k] != ""
    ensures var items := EscapedItems(ts, true);
            |items| == |ts| && GoodLine(items, "", true) && Texts(items) == ts
  {
    var items := EscapedItems(ts, true);
    forall k | 0 <= k < |ts|
      ensures GoodItem(items[k]) && TextOf(items[k].word) == ts[k]
    {
      EscapedWordIs(ts[k]);
      EscapedIsGoodWord(ts[k]);
      hide TextOf, WriteOf;
    }
    hide GoodItem, TextOf;
    EscapedStart(ts);
  }

  lemma EscapedIsGoodWord(t: string)
    ensures forall k :: 0 <= k < |EscapedWord(t)| ==> GoodPiece(EscapedWord(t)[k])
  {
  }

  lemma EscapedStart(ts: seq<string>)
    requires ts != [] && ts[0] != ""
    ensures var line := Line(EscapedItems(ts, true), ""); line != "" && line[0] == BACKSLASH
  {
    JoinedIsLine(ts, true);
    assert "" + Joined(ts) == Joined(ts);
    assert Escapes(ts[0])[0] == BACKSLASH;
  }
}
