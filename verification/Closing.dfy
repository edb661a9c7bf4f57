/** Where the brackets of an emitted call close. */
module Closing {
  import opened Machine
  import opened Lexer
  import opened Splitter
  import opened Format
  import opened Rewriter

  /** Outside a literal, at depth `d`. */
  function Out(d: int): Lex {
    Lex(d, false, false)
  }

  /** A text read from outside a literal ends outside one. */
  predicate EndsOut(s: string) {
    !Scan(Round, START, s).inString
  }

  /** Read from outside a literal, at any depth, two texts end in the same state, and one
      closes the first bracket exactly when the other does. */
  ghost predicate Alike(s: string, t: string) {
    forall d :: AlikeAt(d, s, t)
  }

  predicate AlikeAt(d: int, s: string, t: string) {
    && Scan(Round, Out(d), s) == Scan(Round, Out(d), t)
    && (MatchClose(1, Out(d), s).None? <==> MatchClose(1, Out(d), t).None?)
  }

  lemma {:induction false} OutState(d: int, s: string)
    requires EndsOut(s)
    ensures Scan(Round, Out(d), s) == Out(Scan(Round, Out(d), s).depth)
  {
    ScanQuotes(Round, Round, START, Out(d), s);
    ScanSound(Round, Out(d), s);
  }

  lemma {:induction false} EndsOutConcat(s: string, t: string)
    requires EndsOut(s)
    ensures EndsOut(s + t) <==> EndsOut(t)
  {
    ScanConcat(Round, START, s, t);
    OutState(0, s);
    ScanQuotes(Round, Round, START, Scan(Round, START, s), t);
  }

  lemma {:induction false} CloseConcat(st: Lex, s: string, t: string)
    ensures MatchClose(1, st, s + t).None? <==>
            MatchClose(1, st, s).None? && MatchClose(1, Scan(Round, st, s), t).None?
  {
    if MatchClose(1, st, s).None? {
      PassOver(1, st, s, t);
    } else {
      CloseBeforeFound(st, s, t);
    }
  }

  lemma {:induction false} AlikeConcat(s: string, s': string, t: string, t': string)
    requires Alike(s, s') && Alike(t, t') && EndsOut(s)
    ensures Alike(s + t, s' + t')
  {
    forall d
      ensures AlikeAt(d, s + t, s' + t')
    {
      assert AlikeAt(d, s, s');
      OutState(d, s);
      assert AlikeAt(Scan(Round, Out(d), s).depth, t, t');
      ScanConcat(Round, Out(d), s, t);
      ScanConcat(Round, Out(d), s', t');
      CloseConcat(Out(d), s, t);
      CloseConcat(Out(d), s', t');
    }
  }

  // ------------------------------------------------------------ texts that do not matter

  predicate Inert(s: string) {
    forall i :: 0 <= i < |s| ==> s[i] != '"' && s[i] != '(' && s[i] != ')'
  }

  lemma {:induction false} InertScan(d: int, s: string)
    requires Inert(s)
    ensures Scan(Round, Out(d), s) == Out(d) && MatchClose(1, Out(d), s).None?
    decreases |s|
  {
    if s != "" { InertScan(d, s[1..]); }
  }

  lemma {:induction false} InertAlike(s: string, t: string)
    requires Inert(s) && Inert(t)
    ensures Alike(s, t) && EndsOut(s) && Balanced(1, s)
  {
    InertScan(0, s);
    InertScan(1, s);
    forall d
      ensures AlikeAt(d, s, t)
    {
      InertScan(d, s);
      InertScan(d, t);
    }
  }

  lemma {:induction false} SpaceInert(s: string)
    requires AllSpace(s)
    ensures Inert(s)
  {
    forall i | 0 <= i < |s|
      ensures s[i] != '"' && s[i] != '(' && s[i] != ')'
    {
      assert IsSpace(s[i]);
    }
  }

  lemma {:induction false} StripAlike(s: string)
    requires EndsOut(s)
    ensures Alike(s, Strip(s)) && EndsOut(Strip(s))
  {
    hide Strip, AllSpace, Inert;
    var l, r := StripCuts(s);
    var m := Strip(s);
    SpaceInert(l);
    SpaceInert(r);
    SpaceInert("");
    InertAlike(l, "");
    InertAlike(r, "");
    assert s == l + (m + r);
    EndsOutConcat(l, m + r);
    SpaceKeepsIn(m, r);
    SameAlike(m);
    AlikeConcat(m, m, r, "");
    AlikeConcat(l, "", m + r, m + "");
    assert "" + (m + "") == m;
  }

  lemma SameAlike(s: string)
    ensures Alike(s, s)
  {
  }

  /** White space does not end a literal. */
  lemma {:induction false} SpaceKeepsIn(m: string, r: string)
    requires EndsOut(m + r) && AllSpace(r)
    ensures EndsOut(m)
  {
    ScanConcat(Round, START, m, r);
    var st := Scan(Round, START, m);
    ScanSpace(st, r);
    ScanQuotes(Round, All, st, st, r);
  }

  // ------------------------------------------------------------ formats

  lemma {:induction false} NoClose(st: Lex, s: string)
    requires ')' !in s
    ensures MatchClose(1, st, s).None?
    decreases |s|
  {
    if s != "" {
      assert s[0] in s;
      NoClose(Advance(Round, st, s[0]), s[1..]);
    }
  }

  lemma {:induction false} RuleLacksClose(r: Rule)
    requires Shaped(r)
    ensures ')' !in r.pat && ')' !in r.repl
  {
    if r.repl != "{}" {
      assert r.pat == "%" + ("\"" + r.pat[2..]);
    }
  }

  lemma {:induction false} ThreeParts(st: Lex, a: string, b: string, c: string)
    ensures var st1 := Scan(Round, st, a);
            var st2 := Scan(Round, st1, b);
            && Scan(Round, st, a + b + c) == Scan(Round, st2, c)
            && (MatchClose(1, st, a + b + c).None? <==>
                MatchClose(1, st, a).None? && MatchClose(1, st1, b).None? && MatchClose(1, st2, c).None?)
  {
    hide Scan, MatchClose;
    ScanConcat(Round, st, a + b, c);
    ScanConcat(Round, st, a, b);
    CloseConcat(st, a + b, c);
    CloseConcat(st, a, b);
  }

  lemma {:induction false} ReplaceAlike(text: string, r: Rule, st: Lex)
    requires Shaped(r) && Sound(st)
    ensures r.pat != ""
    ensures Scan(Round, st, ReplaceAll(text, r.pat, r.repl)) == Scan(Round, st, text)
    ensures MatchClose(1, st, ReplaceAll(text, r.pat, r.repl)).None? <==> MatchClose(1, st, text).None?
    decreases |text|
  {
    hide Find, Scan, MatchClose;
    if Find(text, r.pat).Some? {
      AbsentBefore(text, r.pat);
      FindIff(text, r.pat);
      var i := Find(text, r.pat).value;
      var front, rest := text[..i], text[i + |r.pat|..];
      assert text == front + r.pat + rest;
      ThreeParts(st, front, r.pat, rest);
      ThreeParts(st, front, r.repl, ReplaceAll(rest, r.pat, r.repl));
      var st1 := Scan(Round, st, front);
      ScanSound(Round, st, front);
      RuleIsNeutral(Round, r, st1);
      RuleLacksClose(r);
      NoClose(st1, r.pat);
      NoClose(st1, r.repl);
      ScanSound(Round, st1, r.pat);
      ReplaceAlike(rest, r, Scan(Round, st1, r.pat));
    }
  }

  lemma {:induction false} ConvertByAlike(text: string, n: nat, st: Lex)
    requires n <= |RULES| && Sound(st)
    ensures Scan(Round, st, ConvertBy(text, n)) == Scan(Round, st, text)
    ensures MatchClose(1, st, ConvertBy(text, n)).None? <==> MatchClose(1, st, text).None?
    decreases n
  {
    hide Scan, MatchClose, ReplaceAll, Shaped;
    if n > 0 {
      ConvertByAlike(text, n - 1, st);
      RulesAreShaped(n - 1);
      ReplaceAlike(ConvertBy(text, n - 1), RULES[n - 1], st);
    }
  }

  lemma {:induction false} ConvertAlike(arg: string)
    ensures Alike(arg, ConvertArg(arg)) && (EndsOut(arg) <==> EndsOut(ConvertArg(arg)))
  {
    hide ConvertBy, Scan, MatchClose;
    ConvertByAlike(arg, |RULES|, START);
    forall d
      ensures AlikeAt(d, arg, ConvertArg(arg))
    {
      ConvertByAlike(arg, |RULES|, Out(d));
    }
  }

  // ------------------------------------------------------------ whole lists

  predicate AllEndOut(ps: seq<string>) {
    forall i :: 0 <= i < |ps| ==> EndsOut(ps[i])
  }

  lemma {:induction false} AlikeTwice(s: string, t: string, u: string)
    requires Alike(s, t) && Alike(t, u)
    ensures Alike(s, u)
  {
    forall d
      ensures AlikeAt(d, s, u)
    {
      assert AlikeAt(d, s, t) && AlikeAt(d, t, u);
    }
  }

  lemma {:induction false} PieceAlike(p: string)
    requires EndsOut(p)
    ensures Alike(p, ConvertArg(Strip(p))) && EndsOut(ConvertArg(Strip(p)))
  {
    hide Alike, Strip, ConvertArg, EndsOut;
    StripAlike(p);
    ConvertAlike(Strip(p));
    AlikeTwice(p, Strip(p), ConvertArg(Strip(p)));
  }

  lemma Separators()
    ensures Inert(",") && Inert(", ") && Inert("")
  {
  }

  /** The pieces trimmed and converted, each where it was. */
  function Emits(ps: seq<string>): (r: seq<string>)
    ensures |r| == |ps|
  {
    if ps == [] then [] else [ConvertArg(Strip(ps[0]))] + Emits(ps[1..])
  }

  lemma {:induction false} JoinAlike(ps: seq<string>)
    requires ps != [] && AllEndOut(ps)
    ensures Alike(Commas(ps), Join(Emits(ps)))
    decreases |ps|
  {
    hide Alike, EndsOut, ConvertArg, Strip, Inert;
    var p, q := ps[0], ConvertArg(Strip(ps[0]));
    PieceAlike(p);
    if |ps| > 1 {
      JoinAlike(ps[1..]);
      Separators();
      InertAlike(",", ", ");
      AlikeConcat(p, q, ",", ", ");
      EndsOutConcat(p, ",");
      AlikeConcat(p + ",", q + ", ", Commas(ps[1..]), Join(Emits(ps[1..])));
      assert Emits(ps)[1..] == Emits(ps[1..]);
    }
  }

  lemma {:induction false} JoinEmptyLast(xs: seq<string>)
    requires xs != []
    ensures Join(xs + [""]) == Join(xs) + ", "
    decreases |xs|
  {
    assert (xs + [""])[1..] == xs[1..] + [""];
    if |xs| > 1 {
      JoinEmptyLast(xs[1..]);
    }
  }

  lemma {:induction false} EmitsAt(ps: seq<string>, i: nat)
    requires i < |ps|
    ensures Emits(ps)[i] == ConvertArg(Strip(ps[i]))
    decreases |ps|
  {
    if i > 0 { EmitsAt(ps[1..], i - 1); }
  }

  lemma {:induction false} StripAllAt(ps: seq<string>, i: nat)
    requires i < |ps|
    ensures StripAll(ps)[i] == Strip(ps[i])
    decreases |ps|
  {
    if i < |ps| - 1 { StripAllAt(ps[..|ps| - 1], i); }
  }

  lemma EmptyArg()
    ensures ConvertArg("") == ""
  {
  }

  predicate AllButLastEndOut(ps: seq<string>) {
    forall i :: 0 <= i < |ps| - 1 ==> EndsOut(ps[i])
  }

  lemma RestEndOut(ps: seq<string>)
    requires |ps| > 1 && AllButLastEndOut(ps)
    ensures EndsOut(ps[0]) && AllButLastEndOut(ps[1..])
  {
    hide EndsOut;
  }

  lemma {:induction false} CommasEndOut(ps: seq<string>)
    requires ps != [] && AllButLastEndOut(ps)
    ensures EndsOut(Commas(ps)) <==> EndsOut(ps[|ps| - 1])
    decreases |ps|
  {
    hide EndsOut, Inert, AllButLastEndOut;
    if |ps| > 1 {
      RestEndOut(ps);
      CommasEndOut(ps[1..]);
      Separators();
      InertAlike(",", "");
      EndsOutConcat(ps[0], ",");
      EndsOutConcat(ps[0] + ",", Commas(ps[1..]));
    }
  }

  lemma EmitsSame(ps: seq<string>, i: nat)
    requires i < |WithoutEmptyTail(StripAll(ps))| - 1
    ensures i < |ps| - 1
    ensures ConvertArgs(WithoutEmptyTail(StripAll(ps))[1..])[i] == Emits(ps[1..])[i]
  {
    hide ConvertArg, Strip, StripAll, Emits;
    StripAllAt(ps, i + 1);
    EmitsAt(ps[1..], i);
  }

  lemma EmitsTail(ps: seq<string>)
    requires |ps| > 1 && |WithoutEmptyTail(StripAll(ps))| < |ps|
    ensures Emits(ps[1..])[|ps| - 2] == ""
  {
    hide ConvertArg, Strip, StripAll, Emits;
    StripAllAt(ps, |ps| - 1);
    EmitsAt(ps[1..], |ps| - 2);
    EmptyArg();
  }

  /** What is emitted for the pieces behind the first, with an empty last one or without. */
  lemma {:induction false} EmittedPieces(ps: seq<string>)
    requires |WithoutEmptyTail(StripAll(ps))| >= 2 && AllEndOut(ps)
    ensures Alike(Commas(ps[1..]), Join(ConvertArgs(WithoutEmptyTail(StripAll(ps))[1..])))
  {
    hide Alike, EndsOut, ConvertArg, Strip, StripAll, Emits, Commas, Join;
    var parts, rest := WithoutEmptyTail(StripAll(ps)), ps[1..];
    JoinAlike(rest);
    var all, some := Emits(rest), ConvertArgs(parts[1..]);
    forall i | 0 <= i < |some|
      ensures some[i] == all[i]
    {
      EmitsSame(ps, i);
    }
    if |some| == |all| {
      assert some == all;
    } else {
      EmitsTail(ps);
      assert all == some + [""];
      JoinEmptyLast(some);
      CommasEndOut(rest);
      DropSeparator(Commas(rest), Join(some));
    }
  }

  lemma {:induction false} DropSeparator(s: string, t: string)
    requires Alike(s, t + ", ") && EndsOut(s)
    ensures Alike(s, t)
  {
    forall d
      ensures AlikeAt(d, s, t)
    {
      assert AlikeAt(d, s, t + ", ");
      OutState(d, s);
      ScanSound(Round, Out(d), t);
      NeutralSeparator(Out(d), t);
      SeparatorBack(Scan(Round, Out(d), t));
      hide Scan, MatchClose;
    }
  }

  lemma {:induction false} SeparatorBack(st: Lex)
    requires Sound(st) && !Scan(Round, st, ", ").inString
    ensures Scan(Round, st, ", ") == st
  {
    assert ", "[1..][1..] == "";
  }

  lemma {:induction false} NeutralSeparator(st: Lex, t: string)
    ensures Scan(Round, st, t + ", ") == Scan(Round, Scan(Round, st, t), ", ")
    ensures MatchClose(1, st, t + ", ").None? <==> MatchClose(1, st, t).None?
  {
    hide Scan, MatchClose;
    ScanConcat(Round, st, t, ", ");
    CloseConcat(st, t, ", ");
    NoClose(Scan(Round, st, t), ", ");
  }

  // ------------------------------------------------------------ the bracket of a call

  /** The bracket in front of a text is closed by the one behind it exactly when the text
      itself is balanced. */
  lemma {:induction false} ClosedEndIff(t: string)
    ensures MatchClose(1, START, "(" + t + ")") == Some(|t| + 1) <==> Balanced(1, t)
  {
    var s := "(" + t + ")";
    assert s[1..] == t + ")";
    PassOrClose(t);
    assert MatchClose(1, START, s) == Later(1, MatchClose(1, Out(1), t + ")"));
  }

  lemma {:induction false} PassOrClose(t: string)
    ensures MatchClose(1, Out(1), t + ")") == Some(|t|) <==> Balanced(1, t)
  {
    ScanSound(Round, Out(1), t);
    CloseOnly(Scan(Round, Out(1), t));
    hide Scan, MatchClose;
    if MatchClose(1, Out(1), t).None? {
      PassOver(1, Out(1), t, ")");
    } else {
      CloseBeforeFound(Out(1), t, ")");
    }
  }

  lemma CloseOnly(st: Lex)
    requires Sound(st)
    ensures MatchClose(1, st, ")") == Some(0) <==> st == Out(1)
  {
  }

  /** Starting deeper ends deeper by as much. */
  lemma {:induction false} ScanShift(st: Lex, k: int, s: string)
    ensures Scan(Round, st.(depth := st.depth + k), s) ==
            Scan(Round, st, s).(depth := Scan(Round, st, s).depth + k)
    decreases |s|
  {
    if s != "" { ScanShift(Advance(Round, st, s[0]), k, s[1..]); }
  }

  /** In a balanced list, what is in front of a comma is balanced exactly when what is behind
      it is. */
  lemma {:induction false} BalancedPartsIff(a: string, c: string)
    requires EndsOut(a) && Balanced(1, a + "," + c)
    ensures Balanced(1, a) <==> Balanced(1, c)
  {
    var tail := "," + c;
    assert a + "," + c == a + tail;
    Separators();
    InertAlike(",", "");
    BalancedConcat(1, ",", c);
    if Balanced(1, a) {
      BalancedConcat(1, a, tail);
    }
    if Balanced(1, c) {
      OutState(1, a);
      var e := Scan(Round, Out(1), a).depth;
      ScanConcat(Round, Out(1), a, tail);
      ScanShift(Out(1), e - 1, tail);
      CloseConcat(Out(1), a, tail);
      hide Scan, MatchClose;
    }
  }

  lemma {:induction false} AlikeBalanced(s: string, t: string)
    requires Alike(s, t)
    ensures Balanced(1, s) <==> Balanced(1, t)
  {
    assert AlikeAt(1, s, t);
  }

  lemma {:induction false} PiecesEndOut(args: string)
    requires Balanced(1, args)
    ensures AllEndOut(Pieces(args)) && EndsOut(args)
  {
    hide Pieces;
    ScanQuotes(Round, Round, START, Out(1), args);
    var ps := Pieces(args);
    PiecesAreArguments(args);
    PiecesRebuild(args);
    forall i | 0 <= i < |ps| - 1
      ensures EndsOut(ps[i])
    {
      assert ClosedText(ps[i]);
      ScanQuotes(Round, All, START, START, ps[i]);
    }
    CommasEndOut(ps);
  }

  lemma {:induction false} SeverityBalanced(severity: string, rest: string)
    requires Inert(severity)
    ensures Balanced(1, severity + ", " + rest) <==> Balanced(1, rest)
  {
    hide Balanced;
    Separators();
    InertAlike(severity, "");
    InertAlike(", ", "");
    assert severity + ", " + rest == severity + (", " + rest);
    BalancedConcat(1, severity, ", " + rest);
    BalancedConcat(1, ", ", rest);
  }

  lemma SeverityInert(i: nat)
    requires i < |LEVELS|
    ensures Inert(LEVELS[i].1) && Inert(LEVELS[i].0)
  {
  }

  lemma {:induction false} FirstPart(ps: seq<string>)
    requires |WithoutEmptyTail(StripAll(ps))| >= 2
    ensures |ps| >= 2 && WithoutEmptyTail(StripAll(ps))[0] == Strip(ps[0])
  {
    StripAllAt(ps, 0);
  }

  lemma {:induction false} StripTwice(s: string)
    ensures Strip(Strip(s)) == Strip(s)
  {
    var l, r := StripCuts(s);
    StripTrimmed(Strip(s));
  }

  /** The bracket of an emitted call is closed by the one that ends it, for whatever severity,
      exactly when the level of the original call is balanced by itself. */
  lemma {:induction false} EmittedClosesIff(args: string, i: nat)
    requires MatchClose(1, START, "(" + args + ")") == Some(|args| + 1) && |Split(args)| >= 2 && i < |LEVELS|
    ensures var t := TlogArgs(LEVELS[i].1, Split(args)[1..]);
            MatchClose(1, START, "(" + t + ")") == Some(|t| + 1) <==> Balanced(1, Strip(Split(args)[0]))
  {
    hide MatchClose, Balanced, Strip, Alike, Pieces, StripAll, ConvertArgs, Inert, EndsOut;
    var ps := Pieces(args);
    var t := TlogArgs(LEVELS[i].1, Split(args)[1..]);
    ClosedEndIff(args);
    ClosedEndIff(t);
    PiecesEndOut(args);
    FinishIsStrip(ps);
    FirstPart(ps);
    assert EndsOut(ps[0]);
    StripTwice(ps[0]);
    StripAlike(ps[0]);
    AlikeBalanced(ps[0], Strip(ps[0]));
    PiecesRebuild(args);
    BalancedPartsIff(ps[0], Commas(ps[1..]));
    EmittedPieces(ps);
    AlikeBalanced(Commas(ps[1..]), Join(ConvertArgs(Split(args)[1..])));
    SeverityInert(i);
    SeverityBalanced(LEVELS[i].1, Join(ConvertArgs(Split(args)[1..])));
  }

  /** So a call with a level of the table becomes one call, which ends where the emitted text
      ends. */
  lemma {:induction false} KnownLevelCloses(args: string, i: nat)
    requires MatchClose(1, START, "(" + args + ")") == Some(|args| + 1) && |Split(args)| >= 2
    requires i < |LEVELS| && Strip(Split(args)[0]) == LEVELS[i].0
    ensures var t := TlogArgs(LEVELS[i].1, Split(args)[1..]);
            Emitted(Split(args)) == "TLOG(" + t + ")" && MatchClose(1, START, "(" + t + ")") == Some(|t| + 1)
  {
    hide MatchClose, Split, Strip, Balanced, Inert, Emitted;
    EmittedClosesIff(args, i);
    KnownLevelKeepsArguments(args, i);
    SeverityInert(i);
    InertAlike(LEVELS[i].0, "");
  }

  /** A level with mixed brackets: the case of each level in the switch for
      `p_lv((],x),y)` has a bracket that closes too early. */
  lemma {:induction false} MixedBracketsDoNotClose(i: nat)
    requires i < |LEVELS|
    ensures var args := "(],x),y";
            && MatchClose(1, START, "(" + args + ")") == Some(|args| + 1) && Split(args) == ["(]", "x),y"]
            && var t := TlogArgs(LEVELS[i].1, Split(args)[1..]);
               MatchClose(1, START, "(" + t + ")") != Some(|t| + 1)
  {
    var a, b := "(]", "x),y";
    var args := a + "," + b;
    MixedSplit();
    MixedBalanced();
    ClosedEndIff(args);
    hide MatchClose, Balanced, Split, Strip;
    EmittedClosesIff(args, i);
  }

  lemma {:induction false} MixedBalanced()
    ensures Balanced(1, "(],x),y") && !Balanced(1, "(]") && "(],x),y" == "(]" + "," + "x),y"
  {
    var group, rest := "(],x)", ",y";
    MixedGroup();
    BalancedConcat(1, group, rest);
    assert Inert(rest);
    InertAlike(rest, rest);
    assert "(]"[1..][1..] == "";
  }

  lemma {:induction false} MixedGroup()
    ensures Balanced(1, "(],x)")
  {
    hide Scan, MatchClose;
    InertScan(2, "],x");
    Bracketed(1, Out(2), '(', "],x", ')');
    assert ['('] + "],x" + [')'] == "(],x)";
  }

  lemma {:induction false} MixedPieces()
    ensures ClosedText("(]") && NoTopComma("(]") && Trimmed("(]")
    ensures NoTopComma("x),y") && Trimmed("x),y")
  {
    assert "(]"[1..][1..] == "";
    assert "x),y"[1..][1..][1..][1..] == "";
  }

  lemma {:induction false} MixedSplit()
    ensures Split("(],x),y") == ["(]", "x),y"] && Strip("(]") == "(]"
  {
    hide Scan, TopComma, Strip, IsSpace, Pieces;
    var ps := ["(]", "x),y"];
    MixedPieces();
    StripTrimmed(ps[0]);
    StripTrimmed(ps[1]);
    assert ps[1..] == ["x),y"];
    assert Commas(ps) == "(]" + "," + "x),y" == "(],x),y";
    ArgumentPiecesIff("(],x),y", ps);
    assert Finish(ps) == ["(]"] + Finish(["x),y"]);
  }
}
