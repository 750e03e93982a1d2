/** Exactly which texts a quiet scan prints, and exactly which texts are
    scanned past their end. */
module QuietScan {
  import opened IfTemplate

  /** What a text without closing braces comes to when each '$' is passed over
      together with the character behind it. */
  datatype Finish = Clean | Dangling | LoneDollar

  function Walk(t: string): Finish
    decreases |t|
  {
    if t == "" then Clean
    else if t[0] != DOLLAR then Walk(Adv(t, 1))
    else if |t| == 1 then LoneDollar
    else if t[1] == OPEN then Dangling
    else Walk(Adv(t, 2))
  }

  /** The text behind the last closing brace, or the whole text. */
  function AfterLastClose(s: string): string
    decreases |s|
  {
    var k := IndexOf(s, CLOSE);
    if k == |s| then s else AfterLastClose(Adv(s, k + 1))
  }

  /** How a text ends. */
  function Ending(s: string): Finish {
    Walk(AfterLastClose(s))
  }

  lemma {:induction false} AfterLastCloseIs(s: string)
    ensures CLOSE !in AfterLastClose(s) && exists n :: Behind(s, n, AfterLastClose(s))
    decreases |s|
  {
    var k := IndexOf(s, CLOSE);
    IndexHits(s, CLOSE);
    if k == |s| {
      assert Behind(s, 0, s);
    } else {
      AfterLastCloseIs(Adv(s, k + 1));
      var t := AfterLastClose(Adv(s, k + 1));
      assert AfterLastClose(s) == t;
      hide AfterLastClose, IndexOf, Behind, Adv;
      var n :| Behind(Adv(s, k + 1), n, t);
      FurtherBehind(s, k, n, t);
    }
  }

  lemma FurtherBehind(s: string, k: nat, n: int, t: string)
    requires k < |s| && s[k] == CLOSE && Behind(Adv(s, k + 1), n, t)
    ensures Behind(s, k + 1 + n, t)
  {
    Skip(s, k + 1, n);
  }

  /** `t` starts the text, or stands behind a closing brace, and goes to the
      end. */
  predicate Behind(s: string, n: int, t: string) {
    0 <= n <= |s| && t == s[n..] && (n > 0 ==> s[n - 1] == CLOSE)
  }

  lemma {:induction false} IndexHits(s: string, c: char)
    ensures IndexOf(s, c) < |s| ==> s[IndexOf(s, c)] == c
    ensures c !in s[..IndexOf(s, c)]
    decreases |s|
  {
    if s != "" && s[0] != c {
      IndexHits(Adv(s, 1), c);
      var k := IndexOf(Adv(s, 1), c);
      assert s[..k + 1] == [s[0]] + Adv(s, 1)[..k];
    }
  }

  // ---------------------------------------------------------------------
  // How the ending changes along a scan

  lemma EndingLiteral(s: string)
    requires s != "" && s[0] != DOLLAR
    ensures Ending(s) == Ending(Adv(s, 1))
  {
    if s[0] != CLOSE && IndexOf(s, CLOSE) < |s| {
      Skip(s, 1, IndexOf(s, CLOSE));
    }
  }

  lemma EndingEscape(s: string)
    requires |s| > 1 && s[0] == DOLLAR && s[1] != OPEN
    ensures Ending(s) == Ending(Adv(s, 2))
  {
    Skip(s, 1, 1);
    if s[1] == CLOSE {
      EndingBehind(s, 2);
    } else {
      var k := IndexOf(Adv(s, 2), CLOSE);
      assert IndexOf(s, CLOSE) == 1 + IndexOf(Adv(s, 1), CLOSE) == 2 + k;
      if k < |s| - 2 {
        Skip(s, 2, k + 1);
      }
    }
  }

  lemma {:induction false} EndingBehind(s: string, n: nat)
    requires 0 < n <= |s| && s[n - 1] == CLOSE
    ensures Ending(s) == Ending(Adv(s, n))
    decreases |s|
  {
    var k := IndexOf(s, CLOSE);
    IndexHits(s, CLOSE);
    assert forall i :: 0 <= i < k ==> s[i] != CLOSE by {
      assert forall i :: 0 <= i < k ==> s[i] == s[..k][i];
    }
    if k + 1 < n {
      Skip(s, k + 1, n - k - 1);
      EndingBehind(Adv(s, k + 1), n - k - 1);
    }
  }

  lemma EndingOpen(s: string)
    requires |s| > 1 && s[0] == DOLLAR && s[1] == OPEN && IndexOf(Adv(s, 2), CLOSE) == |s| - 2
    ensures Ending(s) == Dangling
  {
    Skip(s, 1, 1);
    assert IndexOf(s, CLOSE) == 1 + IndexOf(Adv(s, 1), CLOSE) == 2 + IndexOf(Adv(s, 2), CLOSE);
  }

  lemma EndingShort()
    ensures Ending("") == Clean && Ending([DOLLAR]) == LoneDollar
  {
    assert Adv([DOLLAR], 1) == "";
    assert IndexOf([DOLLAR], CLOSE) == 1;
  }

  // ---------------------------------------------------------------------
  // The scan

  /** A scan that stops at `e` and prints `out`, of a text with `length`
      characters that ends with `f`: it leaves the text exactly when a '$'
      stands alone at the end, and prints exactly when it takes an unclosed
      substitution for text. */
  predicate Judged(e: Stop, length: nat, f: Finish, out: seq<Event>) {
    match e
    case Overrun => f == LoneDollar && out == []
    case At(n) => if n == length then f != LoneDollar && (out != [] <==> f == Dangling) else out == []
  }

  lemma JudgedOn(e: Stop, length: nat, f: Finish, k: nat, out: seq<Event>)
    requires Judged(e, length, f, out)
    ensures Judged(Plus(k, e), k + length, f, [] + out)
  {
    assert [] + out == out;
  }

  /** A scan of `p` up to a closing brace or to the end, and another behind
      it. */
  lemma JudgedBehind(p: string, n: nat, out: seq<Event>, e: Stop, more: seq<Event>)
    requires n <= |p| && Judged(At(n), |p|, Ending(p), out) && (0 < n < |p| ==> p[n - 1] == CLOSE)
    requires Judged(e, |p| - n, Ending(Adv(p, n)), more) && (n == |p| ==> e == At(0) && more == [])
    ensures Judged(Plus(n, e), |p|, Ending(p), out + more)
  {
    if 0 < n < |p| {
      EndingBehind(p, n);
    }
    if n == 0 {
      Skip(p, 0, 0);
      assert Adv(p, 0) == p;
    }
  }

  /** A scan stops at the end or, inside an argument, before a closing
      brace. */
  lemma {:induction false} ScanStops(s: string, nested: bool)
    requires Scan(s, nested).At?
    ensures Stops(Adv(s, Scan(s, nested).n), nested)
    decreases |s|
  {
    if !Stops(s, nested) {
      ScanStep(s, nested);
      hide Scan, Subst, Adv;
      var k := if s[0] != DOLLAR then 1 else if s[1] != OPEN then 2 else Subst(s).n;
      ScanStops(Adv(s, k), nested);
      Skip(s, k, Scan(Adv(s, k), nested).n);
    }
  }

  lemma {:induction false} ScanJudged(h: Handlers, s: string, nested: bool)
    ensures Judged(Scan(s, nested), |s|, Ending(s), Out(h, s, nested, true))
    decreases |s|, 2
  {
    EndingShort();
    hide Ending, Subst, SubstOut, Adv;
    if Stops(s, nested) {
      NothingLeft(h, s, nested, true);
    } else if |s| == 1 && s[0] == DOLLAR {
      assert s == [DOLLAR];
    } else {
      ScanStep(s, nested);
      OutStep(h, s, nested, true);
      if s[0] == DOLLAR && s[1] == OPEN && Subst(s).Overrun? {
        OverrunStep(h, s, nested);
      }
      hide Scan, Out, Plus, Judged, Stops;
      if s[0] != DOLLAR {
        EndingLiteral(s);
        var p := Adv(s, 1);
        ScanJudged(h, p, nested);
        JudgedOn(Scan(p, nested), |p|, Ending(p), 1, Out(h, p, nested, true));
      } else if s[1] != OPEN {
        EndingEscape(s);
        var p := Adv(s, 2);
        ScanJudged(h, p, nested);
        JudgedOn(Scan(p, nested), |p|, Ending(p), 2, Out(h, p, nested, true));
      } else {
        SubstJudged(h, s);
        if Subst(s).At? {
          var n := Subst(s).n;
          var q := Adv(s, n);
          ScanJudged(h, q, nested);
          AtTheEnd(h, q, nested);
          JudgedBehind(s, n, SubstOut(h, s, true), Scan(q, nested), Out(h, q, nested, true));
        }
      }
    }
  }

  lemma OverrunStep(h: Handlers, s: string, nested: bool)
    requires !Stops(s, nested) && |s| > 1 && s[0] == DOLLAR && s[1] == OPEN && Subst(s).Overrun?
    ensures Out(h, s, nested, true) == []
  {
  }

  lemma AtTheEnd(h: Handlers, q: string, nested: bool)
    ensures q == "" ==> Scan(q, nested) == At(0) && Out(h, q, nested, true) == []
  {
  }

  lemma SubstSteps(h: Handlers, s: string)
    requires |s| > 1
    ensures var k := IndexOf(Adv(s, 2), CLOSE);
            && (k == |s| - 2 ==> Subst(s) == At(|s|) && SubstOut(h, s, true) != [])
            && (k < |s| - 2 ==> && s[k + 2] == CLOSE
                                && Subst(s) == Plus(k + 3, ScanArgs(Adv(s, k + 3)))
                                && SubstOut(h, s, true) == [] + ArgsOut(h, Adv(s, k + 3)))
  {
    hide Scan, ScanArgs, ArgsOut, IndexOf;
    var k := IndexOf(Adv(s, 2), CLOSE);
    IndexHits(Adv(s, 2), CLOSE);
    if k == |s| - 2 {
      assert Puts(s) != [];
    } else {
      var out := ArgsOut(h, Adv(s, k + 3));
      assert out + [] == out && [] + out == out;
    }
  }

  /** A substitution: with an unclosed name it is printed. */
  lemma SubstJudged(h: Handlers, s: string)
    requires |s| > 1 && s[0] == DOLLAR && s[1] == OPEN
    ensures Judged(Subst(s), |s|, Ending(s), SubstOut(h, s, true))
    ensures Subst(s).At? && Subst(s).n < |s| ==> s[Subst(s).n - 1] == CLOSE
    decreases |s|, 0
  {
    hide Ending, Subst, SubstOut, Adv, Scan, ScanArgs, ArgsOut, IndexOf;
    SubstSteps(h, s);
    var k := IndexOf(Adv(s, 2), CLOSE);
    if k == |s| - 2 {
      EndingOpen(s);
    } else {
      var p := Adv(s, k + 3);
      assert forall i :: 0 <= i < |p| ==> p[i] == s[k + 3 + i] by {
        AdvAt(s, k + 3);
      }
      EndingBehind(s, k + 3);
      ArgsJudged(h, p);
      JudgedOn(ScanArgs(p), |p|, Ending(p), k + 3, ArgsOut(h, p));
    }
  }

  lemma AdvAt(s: string, n: nat)
    requires n <= |s|
    ensures forall i :: 0 <= i < |s| - n ==> Adv(s, n)[i] == s[n + i]
  {
  }

  /** One argument, up to its closing brace. */
  lemma ArgJudged(h: Handlers, s: string)
    ensures Judged(ScanArg(s), |s|, Ending(s), Out(h, s, true, true))
    ensures ScanArg(s).At? && ScanArg(s).n < |s| ==> ScanArg(s).n > 0 && s[ScanArg(s).n - 1] == CLOSE
    decreases |s|, 3
  {
    hide Scan, Out, Ending;
    ScanJudged(h, s, true);
    EndingShort();
    var e := Scan(s, true);
    if e.At? && e.n < |s| {
      ScanStops(s, true);
      AdvAt(s, e.n);
      EndingBehind(s, e.n + 1);
      assert e.n + 1 == |s| ==> Adv(s, e.n + 1) == "";
    }
  }

  lemma {:induction false} ArgsJudged(h: Handlers, s: string)
    ensures Judged(ScanArgs(s), |s|, Ending(s), ArgsOut(h, s))
    ensures ScanArgs(s).At? && 0 < ScanArgs(s).n < |s| ==> s[ScanArgs(s).n - 1] == CLOSE
    decreases |s|, 1
  {
    hide Ending, Adv, Scan, ScanArg, ScanArgs, Out, ArgsOut, AfterArg;
    EndingShort();
    if s == "" || s[0] != OPEN {
      NoArgsLeft(h, s);
    } else {
      var p := Adv(s, 1);
      EndingLiteral(s);
      AdvAt(s, 1);
      ArgsStep(s);
      ArgJudged(h, p);
      if ScanArg(p).At? {
        var n := ScanArg(p).n;
        var q := Adv(p, n);
        ArgsOutStep(h, s);
        AfterArgIs(s);
        Skip(s, 1, n);
        AdvAt(p, n);
        ArgsJudged(h, q);
        NoArgsLeft(h, "");
        JudgedBehind(p, n, Out(h, p, true, true), ScanArgs(q), ArgsOut(h, q));
        JudgedOn(Plus(n, ScanArgs(q)), |p|, Ending(p), 1, Out(h, p, true, true) + ArgsOut(h, q));
      } else {
        NoArgsOut(h, s);
      }
    }
  }

  lemma NoArgsOut(h: Handlers, s: string)
    requires s != "" && s[0] == OPEN && ScanArg(Adv(s, 1)).Overrun?
    ensures ArgsOut(h, s) == []
  {
  }

  /** A quiet scan of a whole text prints nothing exactly when the text behind
      its last closing brace opens no substitution, and a scan of a whole text
      leaves it exactly when a '$' stands alone at the end of that text. */
  lemma QuietIffClosed(h: Handlers, s: string)
    ensures Out(h, s, false, true) == [] <==> Ending(s) != Dangling
    ensures Scan(s, false) == if Ending(s) == LoneDollar then Overrun else At(|s|)
  {
    hide Scan, Out, Ending;
    ScanJudged(h, s, false);
    if Scan(s, false).At? {
      ScanStops(s, false);
    }
  }

  /** Inside an argument, text is printed exactly when the argument is not
      closed and the text behind the last closing brace opens a
      substitution. */
  lemma QuietArgument(h: Handlers, s: string)
    ensures Out(h, s, true, true) != [] <==> Scan(s, true) == At(|s|) && Ending(s) == Dangling
    ensures Scan(s, true) == Overrun ==> Ending(s) == LoneDollar
    ensures Scan(s, true) == At(|s|) ==> Ending(s) != LoneDollar
  {
    ScanJudged(h, s, true);
  }
}
