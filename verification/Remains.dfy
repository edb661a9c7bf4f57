/** Which calls the rewriter leaves behind: it does not look inside the arguments of the calls
    it replaces. */
module Remains {
  import opened Machine
  import opened Lexer
  import opened Splitter
  import opened Format
  import opened Rewriter
  import opened Closing

  // ------------------------------------------------------------ searching in parts

  /** An occurrence does not cover a character that the pattern lacks. */
  lemma {:induction false} NotOver(front: string, c: char, back: string, pat: string, j: nat)
    requires c !in pat && j <= |front| < j + |pat|
    ensures !OccursAt(front + [c] + back, pat, j)
  {
    var all, n := front + [c] + back, |front|;
    if j + |pat| <= |all| {
      assert all[j..j + |pat|][n - j] == c;
      assert pat[n - j] in pat;
    }
  }

  lemma {:induction false} NotAcross(front: string, c: char, back: string, pat: string, j: nat)
    requires c !in pat && OccursAt(front + [c] + back, pat, j) && (j + |pat| <= |front| || |front| < j)
    ensures OccursAt(front, pat, j) || (j > |front| && OccursAt(back, pat, j - |front| - 1))
  {
    var all, n := front + [c] + back, |front|;
    if n < j {
      var m := j - n - 1;
      assert all[j..j + |pat|] == back[m..m + |pat|];
    } else {
      assert all[j..j + |pat|] == front[j..j + |pat|];
    }
  }

  lemma {:induction false} AbsentAround(front: string, c: char, back: string, pat: string)
    requires c !in pat && pat != ""
    ensures Absent(front + [c] + back, pat) <==> Absent(front, pat) && Absent(back, pat)
  {
    hide Find;
    var all := front + [c] + back;
    if Absent(all, pat) {
      AbsentPart(all, pat, 0, |front|);
      AbsentPart(all, pat, |front| + 1, |all|);
      assert all[0..|front|] == front && all[|front| + 1..|all|] == back;
    } else {
      FindIff(all, pat);
      FindIff(front, pat);
      FindIff(back, pat);
      var k := Find(all, pat).value;
      if k <= |front| < k + |pat| {
        NotOver(front, c, back, pat, k);
      } else {
        NotAcross(front, c, back, pat, k);
      }
    }
  }

  lemma AbsentEmpty(pat: string)
    requires pat != ""
    ensures Absent("", pat)
  {
  }

  /** A character in front that the pattern lacks makes no difference. */
  lemma {:induction false} AbsentBehind(c: char, back: string, pat: string)
    requires c !in pat && pat != ""
    ensures Absent([c] + back, pat) <==> Absent(back, pat)
  {
    hide Find, Absent;
    AbsentAround("", c, back, pat);
    AbsentEmpty(pat);
    assert "" + [c] + back == [c] + back;
  }

  lemma {:induction false} AbsentBefore(front: string, c: char, pat: string)
    requires c !in pat && pat != ""
    ensures Absent(front + [c], pat) <==> Absent(front, pat)
  {
    hide Find, Absent;
    AbsentAround(front, c, "", pat);
    AbsentEmpty(pat);
    assert front + [c] + "" == front + [c];
  }

  lemma {:induction false} NoStart(s: string, pat: string, i: nat)
    requires pat != "" && pat[0] !in s
    ensures !OccursAt(s, pat, i)
  {
    if i + |pat| <= |s| {
      assert s[i..i + |pat|][0] == s[i];
      assert s[i] in s;
    }
  }

  lemma {:induction false} AbsentWithout(s: string, pat: string)
    requires pat != "" && pat[0] !in s
    ensures Absent(s, pat)
  {
    FindIff(s, pat);
    if Find(s, pat).Some? {
      NoStart(s, pat, Find(s, pat).value);
    }
  }

  /** A text that begins and ends with characters the pattern lacks keeps apart what is
      around it. */
  lemma {:induction false} AbsentThree(front: string, mid: string, back: string, pat: string)
    requires pat != "" && mid != "" && mid[0] !in pat && mid[|mid| - 1] !in pat
    ensures Absent(front + mid + back, pat) <==> Absent(front, pat) && Absent(mid, pat) && Absent(back, pat)
  {
    hide Find, Absent;
    var a, z, tail, init := mid[0], mid[|mid| - 1], mid[1..], mid[..|mid| - 1];
    assert front + mid + back == front + [a] + (tail + back);
    AbsentAround(front, a, tail + back, pat);
    assert [a] + (tail + back) == mid + back;
    AbsentBehind(a, tail + back, pat);
    assert mid + back == init + [z] + back;
    AbsentAround(init, z, back, pat);
    AbsentBefore(init, z, pat);
    assert init + [z] == mid;
  }

  // ------------------------------------------------------------ what is emitted

  lemma NeedleLacks(c: char)
    requires c in "T s,);}\n"
    ensures c !in NEEDLE
  {
  }

  predicate AllAbsent(parts: seq<string>) {
    forall i :: 0 <= i < |parts| ==> Absent(parts[i], NEEDLE)
  }

  lemma {:induction false} AllAbsentCons(parts: seq<string>)
    requires parts != []
    ensures AllAbsent(parts) <==> Absent(parts[0], NEEDLE) && AllAbsent(parts[1..])
  {
    hide Absent;
    var rest := parts[1..];
    assert forall i :: 0 < i < |parts| ==> parts[i] == rest[i - 1];
    assert forall i :: 0 <= i < |rest| ==> rest[i] == parts[i + 1];
  }

  lemma {:induction false} JoinAbsent(parts: seq<string>)
    requires parts != []
    ensures Absent(Join(parts), NEEDLE) <==> AllAbsent(parts)
    decreases |parts|
  {
    hide Absent, AllAbsent;
    AllAbsentCons(parts);
    if |parts| > 1 {
      var more := Join(parts[1..]);
      JoinAbsent(parts[1..]);
      NeedleLacks(',');
      NeedleLacks(' ');
      assert parts[0] + ", " + more == parts[0] + [','] + ([' '] + more);
      AbsentAround(parts[0], ',', [' '] + more, NEEDLE);
      AbsentBehind(' ', more, NEEDLE);
    } else {
      NoneAbsent(parts[1..]);
    }
  }

  lemma NoneAbsent(parts: seq<string>)
    requires parts == []
    ensures AllAbsent(parts)
  {
  }

  lemma {:induction false} LinesAbsent(parts: seq<string>)
    requires parts != []
    ensures Absent(Lines(parts), NEEDLE) <==> AllAbsent(parts)
    decreases |parts|
  {
    hide Absent, AllAbsent;
    AllAbsentCons(parts);
    if |parts| > 1 {
      var more := Lines(parts[1..]);
      LinesAbsent(parts[1..]);
      NeedleLacks('\n');
      assert parts[0] + "\n" + more == parts[0] + ['\n'] + more;
      AbsentAround(parts[0], '\n', more, NEEDLE);
    } else {
      NoneAbsent(parts[1..]);
    }
  }

  lemma {:induction false} SeverityAbsent(i: nat)
    requires i < |LEVELS|
    ensures Absent("TLOG(" + LEVELS[i].1, NEEDLE) && Absent("case " + LEVELS[i].0 + ":", NEEDLE)
  {
    hide Absent;
    SeverityLacks(i);
    AbsentWithout("TLOG(" + LEVELS[i].1, NEEDLE);
    AbsentWithout("case " + LEVELS[i].0 + ":", NEEDLE);
  }

  lemma SeverityLacks(i: nat)
    requires i < |LEVELS|
    ensures 'p' !in "TLOG(" + LEVELS[i].1 && 'p' !in "case " + LEVELS[i].0 + ":"
  {
  }

  lemma {:induction false} TlogAbsent(i: nat, body: seq<string>)
    requires i < |LEVELS| && body != []
    ensures Absent(Tlog(LEVELS[i].1, body), NEEDLE) <==> AllAbsent(ConvertArgs(body))
  {
    hide Absent, AllAbsent, ConvertArgs, LEVELS;
    var sev, args := LEVELS[i].1, Join(ConvertArgs(body));
    var front, tail := "TLOG(" + sev, args + [')'];
    assert Tlog(sev, body) == front + [','] + ([' '] + tail);
    NeedleLacks(',');
    NeedleLacks(' ');
    NeedleLacks(')');
    SeverityAbsent(i);
    AbsentAround(front, ',', [' '] + tail, NEEDLE);
    AbsentBehind(' ', tail, NEEDLE);
    AbsentBefore(args, ')', NEEDLE);
    ConvertArgsSome(body);
    JoinAbsent(ConvertArgs(body));
  }

  lemma ConvertArgsSome(body: seq<string>)
    requires body != []
    ensures ConvertArgs(body) != []
  {
  }

  lemma {:induction false} CallLineAbsent(call: string)
    ensures Absent("    " + call + ";", NEEDLE) <==> Absent(call, NEEDLE)
  {
    hide Absent;
    NeedleLacks(' ');
    NeedleLacks(';');
    var s := call + [';'];
    assert "    " + call + ";" == [' '] + ([' '] + ([' '] + ([' '] + s)));
    AbsentBehind(' ', [' '] + ([' '] + ([' '] + s)), NEEDLE);
    AbsentBehind(' ', [' '] + ([' '] + s), NEEDLE);
    AbsentBehind(' ', [' '] + s, NEEDLE);
    AbsentBehind(' ', s, NEEDLE);
    AbsentBefore(call, ';', NEEDLE);
  }

  lemma {:induction false} AllAbsentConcat(a: seq<string>, b: seq<string>)
    ensures AllAbsent(a + b) <==> AllAbsent(a) && AllAbsent(b)
  {
    hide Absent;
    assert forall i :: 0 <= i < |a| ==> (a + b)[i] == a[i];
    assert forall i :: 0 <= i < |b| ==> (a + b)[|a| + i] == b[i];
    assert forall i :: |a| <= i < |a + b| ==> (a + b)[i] == b[i - |a|];
  }

  lemma {:induction false} FixedLines()
    ensures Absent("    break;", NEEDLE) && AllAbsent(["default:", "    break;", "}"])
  {
    hide Absent;
    AbsentWithout("    break;", NEEDLE);
    AbsentWithout("default:", NEEDLE);
    AbsentWithout("}", NEEDLE);
  }

  lemma {:induction false} CasesAbsent(body: seq<string>, n: nat)
    requires n <= |LEVELS| && body != []
    ensures AllAbsent(Cases(body, n)) <==> n == 0 || AllAbsent(ConvertArgs(body))
    decreases n
  {
    if n == 0 {
      NoneAbsent(Cases(body, 0));
    } else {
      hide Absent, AllAbsent, Tlog, ConvertArgs;
      CasesAbsent(body, n - 1);
      var call := Tlog(LEVELS[n - 1].1, body);
      var name := "case " + LEVELS[n - 1].0 + ":";
      var three := [name, "    " + call + ";", "    break;"];
      SeverityAbsent(n - 1);
      TlogAbsent(n - 1, body);
      CallLineAbsent(call);
      FixedLines();
      ThreeAbsent(three);
      AllAbsentConcat(Cases(body, n - 1), three);
      assert Cases(body, n) == Cases(body, n - 1) + three;
    }
  }

  lemma {:induction false} ThreeAbsent(three: seq<string>)
    requires |three| == 3
    ensures AllAbsent(three) <==>
            Absent(three[0], NEEDLE) && Absent(three[1], NEEDLE) && Absent(three[2], NEEDLE)
  {
    hide Absent;
  }

  lemma Regrouped(a: string, x: char, b: string, c: string, y: char, d: string)
    ensures (a + [x] + b) + c + ([y] + d) == a + [x] + ((b + c) + [y] + d)
  {
  }

  lemma {:induction false} HeaderAbsent(level: string)
    ensures Absent("switch (" + level + ") {", NEEDLE) <==> Absent(level, NEEDLE)
  {
    hide Absent, Find;
    NeedleLacks(' ');
    NeedleLacks(')');
    assert "switch (" == "switch" + [' '] + "(" && ") {" == [')'] + " {";
    Regrouped("switch", ' ', "(", level, ')', " {");
    AbsentAround("switch", ' ', ("(" + level) + [')'] + " {", NEEDLE);
    AbsentAround("(" + level, ')', " {", NEEDLE);
    AbsentWithout("switch", NEEDLE);
    AbsentWithout(" {", NEEDLE);
    OpenAbsent(level);
  }

  /** The needle ends with its bracket, so it cannot begin with one. */
  lemma {:induction false} OpenAbsent(level: string)
    ensures Absent("(" + level, NEEDLE) <==> Absent(level, NEEDLE)
  {
    hide Find;
    var s := ['('] + level;
    assert |s| >= 5 ==> s[..5][0] == '(' && NEEDLE[0] == 'p';
    FindBehind('(', level, NEEDLE);
    assert "(" + level == s;
  }

  lemma {:induction false} SwitchAbsent(level: string, body: seq<string>)
    requires body != []
    ensures Absent(Lines(SwitchLines(level, body)), NEEDLE) <==> Absent(level, NEEDLE) && AllAbsent(ConvertArgs(body))
  {
    hide Absent, AllAbsent, Cases, ConvertArgs, Lines;
    var first, last := ["switch (" + level + ") {"], ["default:", "    break;", "}"];
    LinesAbsent(SwitchLines(level, body));
    HeaderAbsent(level);
    AllAbsentCons(first);
    NoneAbsent(first[1..]);
    CasesAbsent(body, |LEVELS|);
    FixedLines();
    AllAbsentConcat(first + Cases(body, |LEVELS|), last);
    AllAbsentConcat(first, Cases(body, |LEVELS|));
  }

  /** What a call becomes has no call in it: neither in a level expression that is not in the
      table, nor in the other arguments once converted. */
  predicate Quiet(parts: seq<string>)
    requires |parts| >= 2
  {
    && AllAbsent(ConvertArgs(parts[1..]))
    && (SeverityOf(Strip(parts[0]), |LEVELS|).None? ==> Absent(Strip(parts[0]), NEEDLE))
  }

  lemma {:induction false} SeverityFound(level: string, n: nat) returns (i: nat)
    requires n <= |LEVELS| && SeverityOf(level, n).Some?
    ensures i < n && SeverityOf(level, n) == Some(LEVELS[i].1)
    decreases n
  {
    if LEVELS[n - 1].0 == level {
      i := n - 1;
    } else {
      i := SeverityFound(level, n - 1);
    }
  }

  lemma {:induction false} EmittedAbsent(parts: seq<string>)
    requires |parts| >= 2
    ensures Absent(Emitted(parts), NEEDLE) <==> Quiet(parts)
  {
    hide Absent, AllAbsent, ConvertArgs, Strip, SeverityOf, Tlog, SwitchLines, Lines;
    var level, body := Strip(parts[0]), parts[1..];
    if SeverityOf(level, |LEVELS|).Some? {
      var i := SeverityFound(level, |LEVELS|);
      TlogAbsent(i, body);
    } else {
      SwitchAbsent(level, body);
    }
  }

  lemma {:induction false} LinesEnd(parts: seq<string>)
    requires parts != [] && parts[|parts| - 1] != ""
    ensures var s, z := Lines(parts), parts[|parts| - 1];
            s != "" && s[|s| - 1] == z[|z| - 1] && (parts[0] != "" ==> s[0] == parts[0][0])
    decreases |parts|
  {
    if |parts| > 1 { LinesEnd(parts[1..]); }
  }

  lemma {:induction false} EmittedEnds(parts: seq<string>)
    requires |parts| >= 2
    ensures var s := Emitted(parts);
            s != "" && s[0] in "Ts" && s[|s| - 1] in ")}"
  {
    hide Strip, SeverityOf, TlogArgs, Cases, Lines;
    var level, body := Strip(parts[0]), parts[1..];
    if SeverityOf(level, |LEVELS|).None? {
      var lines := SwitchLines(level, body);
      assert lines[|lines| - 1] == "}" && lines[0][0] == 's';
      LinesEnd(lines);
    }
  }

  // ------------------------------------------------------------ the whole text

  predicate AllQuiet(p: Parse)
    requires WellParsed(p)
  {
    match p
    case End(_) => true
    case Call(_, args, rest) => Quiet(Split(args)) && AllQuiet(rest)
  }

  lemma {:induction false} CopyAbsent(copy: string)
    requires Find(copy + NEEDLE, NEEDLE) == Some(|copy|)
    ensures Absent(copy, NEEDLE)
  {
    hide Find;
    Format.AbsentBefore(copy + NEEDLE, NEEDLE);
    assert (copy + NEEDLE)[..|copy|] == copy;
  }

  /** No call is left in the result exactly when what every call becomes is free of calls. */
  lemma {:induction false} NoneLeftIff(p: Parse)
    requires WellParsed(p)
    ensures Absent(Target(p), NEEDLE) <==> AllQuiet(p)
  {
    hide Find, Absent, Quiet, Emitted, Split, MatchClose;
    match p
    case End(copy) =>
    case Call(copy, args, rest) =>
      NoneLeftIff(rest);
      CopyAbsent(copy);
      EmittedAbsent(Split(args));
      EmittedEnds(Split(args));
      EndsLack();
      AbsentThree(copy, Emitted(Split(args)), Target(rest), NEEDLE);
  }

  lemma EndsLack()
    ensures forall c :: c in "Ts" || c in ")}" ==> c !in NEEDLE
  {
  }

  lemma {:induction false} CallChanges(p: Parse)
    requires WellParsed(p) && p.Call?
    ensures Source(p) != Target(p)
  {
    hide Find, Absent, Emitted, Split, MatchClose;
    EmittedEnds(Split(p.args));
    assert Source(p)[|p.copy|] == 'p';
    assert Target(p)[|p.copy|] == Emitted(Split(p.args))[0];
  }

  /** A text is left as it is exactly when there is no call in it. */
  lemma {:induction false} UnchangedIff(text: string)
    ensures Rewrite(text) == Ok(text) <==> Absent(text, NEEDLE)
  {
    if Absent(text, NEEDLE) {
      ParseGivesRewrite(End(text));
    } else if Rewrite(text).Ok? {
      var p := RewriteGivesParse(text);
      hide Rewrite, Absent;
      if p.Call? { CallChanges(p); }
    }
  }

  /** Rewriting what was rewritten changes nothing exactly when no call was left. */
  lemma {:induction false} RewriteTwiceIff(p: Parse)
    requires WellParsed(p)
    ensures Rewrite(Source(p)) == Ok(Target(p))
    ensures Rewrite(Target(p)) == Ok(Target(p)) <==> AllQuiet(p)
  {
    hide Rewrite, Absent, AllQuiet;
    ParseGivesRewrite(p);
    UnchangedIff(Target(p));
    NoneLeftIff(p);
  }

  /** A call inside another one is left as it is. */
  lemma {:induction false} NestedCallIsLeft()
    ensures var p := Parse.Call("", "L_INFO, p_lv(x)", End(""));
            WellParsed(p) && !AllQuiet(p)
  {
    var a, b := "L_INFO", "p_lv(x)";
    NestedSplit();
    NestedCloses();
    NestedAbsent();
    hide Split, MatchClose, Absent, Quiet;
    assert "" + NEEDLE == NEEDLE;
  }

  lemma {:induction false} NestedSplit()
    ensures Split("L_INFO, p_lv(x)") == ["L_INFO", "p_lv(x)"]
  {
    var args := ["L_INFO", "p_lv(x)"];
    NestedArguments();
    assert args[1..] == ["p_lv(x)"];
    assert Join(args) == "L_INFO" + ", " + "p_lv(x)" == "L_INFO, p_lv(x)";
    hide Split, Argument;
    SplitJoin(args);
  }

  /** Neither quotes nor brackets. */
  predicate Bare(s: string) {
    forall i :: 0 <= i < |s| ==> s[i] != '"' && !Opens(All, s[i]) && !Closes(All, s[i])
  }

  lemma {:induction false} BareClosed(s: string)
    requires Bare(s)
    ensures ClosedText(s)
    decreases |s|
  {
    if s != "" { BareClosed(s[1..]); }
  }

  lemma {:induction false} NestedArguments()
    ensures Argument("L_INFO", false) && Argument("p_lv(x)", true)
  {
    hide TopComma, Scan;
    NoComma(START, "p_lv(x)");
    NoComma(START, "L_INFO");
    BareClosed("L_INFO");
  }

  lemma {:induction false} NestedCloses()
    ensures MatchClose(1, START, "(" + "L_INFO, p_lv(x)" + ")") == Some(|"L_INFO, p_lv(x)"| + 1)
  {
    hide MatchClose, Scan;
    InertScan(2, "x");
    Bracketed(1, Out(2), '(', "x", ')');
    assert ['('] + "x" + [')'] == "(x)";
    InertAlike("L_INFO, p_lv", "");
    BalancedConcat(1, "L_INFO, p_lv", "(x)");
    assert "L_INFO, p_lv" + "(x)" == "L_INFO, p_lv(x)";
    ClosedEndIff("L_INFO, p_lv(x)");
  }

  lemma {:induction false} NestedAbsent()
    ensures !Quiet(["L_INFO", "p_lv(x)"]) && Absent("", NEEDLE) && Find(NEEDLE, NEEDLE) == Some(0)
  {
    assert ["L_INFO", "p_lv(x)"][1..] == ["p_lv(x)"];
    assert "p_lv(x)"[..5] == NEEDLE;
    assert !Absent("p_lv(x)", NEEDLE);
    assert ConvertArgs(["p_lv(x)"])[0] == "p_lv(x)";
  }
}
