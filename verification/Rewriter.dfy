/** The rewriting of `p_lv(...)` calls into `TLOG(...)` calls. */
module Rewriter {
  import opened Machine
  import opened Lexer
  import opened Splitter
  import opened Format

  datatype Error = UnmatchedParenthesis | InvalidArguments(args: string)

  datatype Result = Ok(text: string) | Raised(error: Error)

  const NEEDLE := "p_lv("

  /** Level names and severities, in the order of the table. */
  const LEVELS: seq<(string, string)> := [
    ("L_FATAL", "FATAL"), ("L_ERROR", "ERROR"), ("L_WARN", "WARNING"),
    ("L_INFO", "INFO"), ("L_DEBUG", "DEBUG"), ("L_TRACE", "TRACE")]

  function SeverityOf(level: string, n: nat): Option<string>
    requires n <= |LEVELS|
  {
    if n == 0 then None
    else if LEVELS[n - 1].0 == level then Some(LEVELS[n - 1].1)
    else SeverityOf(level, n - 1)
  }

  function Tlog(severity: string, body: seq<string>): string {
    "TLOG(" + TlogArgs(severity, body) + ")"
  }

  function Cases(body: seq<string>, n: nat): seq<string>
    requires n <= |LEVELS|
  {
    if n == 0 then []
    else
      var call := Tlog(LEVELS[n - 1].1, body);
      Cases(body, n - 1) + ["case " + LEVELS[n - 1].0 + ":", "    " + call + ";", "    break;"]
  }

  function Lines(lines: seq<string>): string {
    if lines == [] then ""
    else if |lines| == 1 then lines[0]
    else lines[0] + "\n" + Lines(lines[1..])
  }

  /** Every line but the last has a line feed behind it. */
  lemma {:induction false} LinesLast(lines: seq<string>, last: string)
    ensures Lines(lines + [last]) == (if lines == [] then "" else Lines(lines) + "\n") + last
    decreases |lines|
  {
    if lines == [] {
      assert lines + [last] == [last];
    } else {
      LinesLast(lines[1..], last);
      assert (lines + [last])[1..] == lines[1..] + [last];
    }
  }

  function SwitchLines(level: string, body: seq<string>): seq<string> {
    ["switch (" + level + ") {"] + Cases(body, |LEVELS|) + ["default:", "    break;", "}"]
  }

  /** What a call with these arguments becomes: one `TLOG` for a known level, and a switch
      over all levels otherwise. */
  function Emitted(parts: seq<string>): string
    requires |parts| >= 2
  {
    var level, body := Strip(parts[0]), parts[1..];
    match SeverityOf(level, |LEVELS|)
    case Some(severity) => Tlog(severity, body)
    case None => Lines(SwitchLines(level, body))
  }

  method EmitCall(parts: seq<string>) returns (r: string)
    requires |parts| >= 2
    ensures r == Emitted(parts)
  {
    hide ConvertedAll, ConvertArgs, Strip, SeverityOf, Join;
    var level, body := Strip(parts[0]), parts[1..];
    var severity := SeverityOf(level, |LEVELS|);
    if severity.Some? {
      r := EmitTlog(severity.value, body);
    } else {
      var lines := ["switch (" + level + ") {"];
      for n := 0 to |LEVELS|
        invariant lines == ["switch (" + level + ") {"] + Cases(body, n)
      {
        var call := EmitTlog(LEVELS[n].1, body);
        lines := lines + ["case " + LEVELS[n].0 + ":", "    " + call + ";", "    break;"];
      }
      r := Lines(lines + ["default:", "    break;", "}"]);
    }
  }

  function Prepend(front: string, r: Result): Result {
    match r
    case Ok(t) => Ok(front + t)
    case Raised(_) => r
  }

  /** The first call of a text: what is before it, between its brackets, and behind it. */
  datatype Found = NoCall | Unclosed | Found(copy: string, args: string, behind: string)

  /** What is searched for ends with the bracket that opens the arguments. */
  predicate Opening(pat: string) {
    pat != "" && pat[|pat| - 1] == '('
  }

  lemma {:induction false} FoundOpening(pat: string, text: string, pos: nat)
    requires Opening(pat) && Find(text, pat) == Some(pos)
    ensures pos + |pat| <= |text| && text[pos..pos + |pat|] == pat && text[pos + |pat| - 1] == '('
    ensures MatchClose(1, START, text[pos + |pat| - 1..]) != Some(0)
  {
    FindIff(text, pat);
    var here := text[pos..pos + |pat|];
    assert here[|pat| - 1] == text[pos + |pat| - 1];
    NotAtOnce(text[pos + |pat| - 1..]);
  }

  lemma NotAtOnce(s: string)
    requires s != "" && s[0] == '('
    ensures MatchClose(1, START, s) != Some(0)
  {
  }

  /** The call that starts at `pos` and closes `k` characters behind its bracket. */
  function CutCall(text: string, pos: nat, open: nat, k: nat): (f: Found)
    requires pos <= open && 0 < k && open + k < |text|
    ensures f.Found? && |f.behind| < |text|
  {
    Found(text[..pos], text[open + 1..open + k], text[open + k + 1..])
  }

  function NextCall(pat: string, text: string): (f: Found)
    requires Opening(pat)
    ensures f.Found? ==> |f.behind| < |text|
  {
    match Find(text, pat)
    case None => NoCall
    case Some(pos) =>
      FoundOpening(pat, text, pos);
      var open := pos + |pat| - 1;
      match MatchClose(1, START, text[open..])
      case None => Unclosed
      case Some(k) => CutCall(text, pos, open, k)
  }

  /** Rewrite the leftmost call, and go on behind its closing bracket. */
  function Rewrite(text: string): Result
    decreases |text|
  {
    match NextCall(NEEDLE, text)
    case NoCall => Ok(text)
    case Unclosed => Raised(UnmatchedParenthesis)
    case Found(copy, args, behind) =>
      if |Split(args)| < 2 then Raised(InvalidArguments(args))
      else Prepend(copy + Emitted(Split(args)), Rewrite(behind))
  }

  /** `str.find(pat, idx)`. */
  function FindFrom(pat: string, text: string, idx: nat): Option<nat>
    requires idx <= |text|
  {
    Later(idx, Find(text[idx..], pat))
  }

  lemma Suffixes(s: string, i: nat, a: nat, b: nat)
    requires i + a <= i + b <= |s|
    ensures s[i..][a..b] == s[i + a..i + b] && s[i..][b..] == s[i + b..]
  {
  }

  lemma CutFrom(text: string, idx: nat, pos: nat, open: nat, k: nat)
    requires idx <= pos <= open && 0 < k && open + k < |text|
    ensures CutCall(text[idx..], pos - idx, open - idx, k) ==
            Found(text[idx..pos], text[open + 1..open + k], text[open + k + 1..])
  {
  }

  lemma {:induction false} NextCallIs(pat: string, text: string, pos: nat)
    requires Opening(pat) && Find(text, pat) == Some(pos)
    ensures pos + |pat| <= |text|
    ensures var open := pos + |pat| - 1;
            match MatchClose(1, START, text[open..])
            case None => NextCall(pat, text) == Unclosed
            case Some(k) => 0 < k && open + k < |text| && NextCall(pat, text) == CutCall(text, pos, open, k)
  {
    hide MatchClose, Find;
    FoundOpening(pat, text, pos);
  }

  lemma NoCallFound(pat: string, text: string)
    requires Opening(pat) && Find(text, pat) == None
    ensures NextCall(pat, text) == NoCall
  {
    hide Find;
  }

  /** The index arithmetic of the loop, against `NextCall` of what is left. */
  lemma {:induction false} NextCallFrom(pat: string, text: string, idx: nat, pos: nat)
    requires Opening(pat) && idx <= |text| && FindFrom(pat, text, idx) == Some(pos)
    ensures idx <= pos && pos + |pat| <= |text|
    ensures var open := pos + |pat| - 1;
            match CloseFrom(START, text, open)
            case None => NextCall(pat, text[idx..]) == Unclosed
            case Some(close) =>
              && open < close < |text|
              && NextCall(pat, text[idx..]) == Found(text[idx..pos], text[open + 1..close], text[close + 1..])
  {
    hide MatchClose, Find, NextCall, CutCall;
    var open := pos + |pat| - 1;
    NextCallIs(pat, text[idx..], pos - idx);
    Suffixes(text, idx, open - idx, open - idx);
    var m := MatchClose(1, START, text[open..]);
    if m.Some? {
      CutFrom(text, idx, pos, open, m.value);
    }
  }

  /** What is left of the text after `idx`, unrolled once with the indices of the loop. */
  lemma {:induction false} RewriteFrom(text: string, idx: nat)
    requires idx <= |text|
    ensures match FindFrom(NEEDLE, text, idx)
            case None => Rewrite(text[idx..]) == Ok(text[idx..])
            case Some(pos) =>
              && idx <= pos && pos + 4 < |text|
              && match CloseFrom(START, text, pos + 4)
                 case None => Rewrite(text[idx..]) == Raised(UnmatchedParenthesis)
                 case Some(close) =>
                   && pos + 4 < close < |text|
                   && var args := text[pos + 5..close];
                      Rewrite(text[idx..]) ==
                      if |Split(args)| < 2 then Raised(InvalidArguments(args))
                      else Prepend(text[idx..pos] + Emitted(Split(args)), Rewrite(text[close + 1..]))
  {
    hide MatchClose, Find, Split, Emitted, NextCall, CloseFrom;
    var pos := FindFrom(NEEDLE, text, idx);
    if pos.Some? {
      NextCallFrom(NEEDLE, text, idx, pos.value);
    } else {
      NoCallFound(NEEDLE, text[idx..]);
    }
  }

  /** `replace_p_lv_calls`. */
  method ReplacePLvCalls(text: string) returns (r: Result)
    ensures r == Rewrite(text)
  {
    hide MatchClose, Find, Split, SplitsInto, Emitted, Rewrite, ClosesAt, CloseFrom;
    var out, idx := "", 0;
    assert text[0..] == text;
    PrependNothing(Rewrite(text));
    while true
      invariant 0 <= idx <= |text|
      invariant Prepend(out, Rewrite(text[idx..])) == Rewrite(text)
      decreases |text| - idx
    {
      RewriteFrom(text, idx);
      var pos := FindFrom(NEEDLE, text, idx);
      if pos.None? {
        return Ok(out + text[idx..]);
      }
      var openParen := pos.value + 4;
      var closeParen := FindMatchingParen(text, openParen);
      if closeParen.None? {
        return Raised(UnmatchedParenthesis);
      }
      var args := text[openParen + 1..closeParen.value];
      var parts := SplitTopLevelArgs(args);
      if |parts| < 2 {
        return Raised(InvalidArguments(args));
      }
      var call := EmitCall(parts);
      PrependTwice(out, text[idx..pos.value] + call, Rewrite(text[closeParen.value + 1..]));
      out := out + (text[idx..pos.value] + call);
      idx := closeParen.value + 1;
    }
  }

  lemma PrependNothing(r: Result)
    ensures Prepend("", r) == r
  {
  }

  lemma PrependTwice(a: string, b: string, r: Result)
    ensures Prepend(a, Prepend(b, r)) == Prepend(a + b, r)
  {
  }

  // ------------------------------------------------------------ nothing else changes

  /** A text cut into stretches to copy and calls to rewrite. */
  datatype Parse = End(copy: string) | Call(copy: string, args: string, rest: Parse)

  function Source(p: Parse): string {
    match p
    case End(copy) => copy
    case Call(copy, args, rest) => copy + NEEDLE + args + ")" + Source(rest)
  }

  function Target(p: Parse): string
    requires WellParsed(p)
  {
    match p
    case End(copy) => copy
    case Call(copy, args, rest) => copy + Emitted(Split(args)) + Target(rest)
  }

  /** The stretch before the call is free of the needle, and the brackets are matching
      ones. */
  predicate ProperCall(pat: string, copy: string, args: string) {
    && Find(copy + pat, pat) == Some(|copy|)
    && MatchClose(1, START, "(" + args + ")") == Some(|args| + 1)
  }

  /** Every call is proper and has a level and a body. */
  predicate WellParsed(p: Parse) {
    match p
    case End(copy) => Absent(copy, NEEDLE)
    case Call(copy, args, rest) =>
      && ProperCall(NEEDLE, copy, args)
      && |Split(args)| >= 2
      && WellParsed(rest)
  }

  lemma {:induction false} FindBefore(text: string, more: string, pat: string, i: nat)
    requires i + |pat| <= |text|
    ensures Find(text + more, pat) == Some(i) <==> Find(text, pat) == Some(i)
  {
    var all := text + more;
    FindIff(text, pat);
    FindIff(all, pat);
    forall j: nat | j + |pat| <= |text|
      ensures OccursAt(text, pat, j) <==> OccursAt(all, pat, j)
    {
      assert all[j..j + |pat|] == text[j..j + |pat|];
    }
    if Find(text, pat).Some? && Find(text, pat).value <= i {
      assert OccursAt(all, pat, Find(text, pat).value);
    }
    if Find(all, pat).Some? && Find(all, pat).value <= i {
      assert OccursAt(text, pat, Find(all, pat).value);
    }
  }

  lemma {:induction false} CloseBefore(s: string, more: string, k: nat)
    requires k < |s|
    ensures MatchClose(1, START, s + more) == Some(k) <==> MatchClose(1, START, s) == Some(k)
  {
    if MatchClose(1, START, s).None? {
      PassOver(1, START, s, more);
    } else {
      CloseBeforeFound(START, s, more);
    }
  }

  lemma {:induction false} CloseBeforeFound(st: Lex, s: string, more: string)
    requires MatchClose(1, st, s).Some?
    ensures MatchClose(1, st, s + more) == MatchClose(1, st, s)
    decreases |s|
  {
    if !ClosesHere(1, st, s[0]) {
      CloseBeforeFound(Advance(Round, st, s[0]), s[1..], more);
      assert (s + more)[1..] == s[1..] + more;
    }
  }

  lemma CutConcat(copy: string, pat: string, args: string, behind: string)
    requires pat != ""
    ensures CutCall(copy + pat + args + ")" + behind, |copy|, |copy| + |pat| - 1, |args| + 1) ==
            Found(copy, args, behind)
  {
  }

  lemma {:induction false} CallInFront(pat: string, copy: string, args: string, behind: string)
    requires Opening(pat) && ProperCall(pat, copy, args)
    ensures NextCall(pat, copy + pat + args + ")" + behind) == Found(copy, args, behind)
  {
    hide MatchClose, Find;
    var text, s, tail := copy + pat + args + ")" + behind, "(" + args + ")", args + ")" + behind;
    var open := |copy| + |pat| - 1;
    assert text == (copy + pat) + tail;
    FindBefore(copy + pat, tail, pat, |copy|);
    CloseBefore(s, behind, |args| + 1);
    assert text[open..] == s + behind;
    CutConcat(copy, pat, args, behind);
  }

  lemma CutJoins(text: string, pat: string, pos: nat, k: nat)
    requires pat != "" && 0 < k && pos + |pat| - 1 + k < |text|
    requires text[pos..pos + |pat|] == pat && text[pos + |pat| - 1 + k] == ')'
    ensures var f := CutCall(text, pos, pos + |pat| - 1, k);
            text == f.copy + pat + f.args + ")" + f.behind
  {
  }

  lemma {:induction false} FoundIsCall(pat: string, text: string)
    requires Opening(pat) && NextCall(pat, text).Found?
    ensures var f := NextCall(pat, text);
            ProperCall(pat, f.copy, f.args) && text == f.copy + pat + f.args + ")" + f.behind
  {
    var pos := Find(text, pat).value;
    FoundOpening(pat, text, pos);
    var open := pos + |pat| - 1;
    var k := MatchClose(1, START, text[open..]).value;
    CallIsProper(pat, text, pos, k);
  }

  lemma {:induction false} CallIsProper(pat: string, text: string, pos: nat, k: nat)
    requires Opening(pat) && Find(text, pat) == Some(pos) && pos + |pat| <= |text|
    requires MatchClose(1, START, text[pos + |pat| - 1..]) == Some(k)
    ensures var open := pos + |pat| - 1;
            && 0 < k && open + k < |text|
            && var f := CutCall(text, pos, open, k);
               ProperCall(pat, f.copy, f.args) && text == f.copy + pat + f.args + ")" + f.behind
  {
    hide MatchClose, Find;
    var open := pos + |pat| - 1;
    var s := text[open..];
    FoundOpening(pat, text, pos);
    ClosedAt(s, k);
    assert text[open + k] == s[k];
    CutJoins(text, pat, pos, k);
    var f := CutCall(text, pos, open, k);
    CutFrom(text, open, open, open, k);
    CloseBefore("(" + f.args + ")", f.behind, k);
    FindBefore(f.copy + pat, f.args + ")" + f.behind, pat, pos);
    assert text == (f.copy + pat) + (f.args + ")" + f.behind);
  }

  lemma FourParts(s: string, k: nat)
    requires 0 < k < |s|
    ensures s == [s[0]] + s[1..k] + [s[k]] + s[k + 1..]
  {
  }

  lemma {:induction false} ClosedAt(s: string, k: nat)
    requires s != "" && s[0] == '(' && MatchClose(1, START, s) == Some(k)
    ensures 0 < k < |s| && s == "(" + s[1..k] + ")" + s[k + 1..]
  {
    MatchCloseIff(1, START, s);
    NotAtOnce(s);
    FourParts(s, k);
  }

  lemma {:induction false} ParseGivesRewrite(p: Parse)
    requires WellParsed(p)
    ensures Rewrite(Source(p)) == Ok(Target(p))
  {
    match p
    case End(copy) =>
    case Call(copy, args, rest) =>
      ParseGivesRewrite(rest);
      CallInFront(NEEDLE, copy, args, Source(rest));
  }

  lemma {:induction false} RewriteGivesParse(text: string) returns (p: Parse)
    requires Rewrite(text).Ok?
    ensures WellParsed(p) && Source(p) == text && Target(p) == Rewrite(text).text
    decreases |text|
  {
    match NextCall(NEEDLE, text)
    case NoCall => p := End(text);
    case Found(copy, args, behind) =>
      FoundIsCall(NEEDLE, text);
      var rest := RewriteGivesParse(behind);
      p := Call(copy, args, rest);
  }

  /** The rewriter succeeds with `out` exactly when the text can be cut at its leftmost
      disjoint calls, each properly closed and with at least two arguments; then `out` is
      the text with those calls replaced and every other character kept in place. */
  lemma {:induction false} RewriteIffParsed(text: string, out: string)
    ensures Rewrite(text) == Ok(out) <==>
            exists p: Parse :: WellParsed(p) && Source(p) == text && Target(p) == out
  {
    if Rewrite(text) == Ok(out) {
      var p := RewriteGivesParse(text);
    }
    forall p: Parse | WellParsed(p) && Source(p) == text && Target(p) == out
      ensures Rewrite(text) == Ok(out)
    {
      ParseGivesRewrite(p);
    }
  }

  /** There is only one such way to cut a text. */
  lemma {:induction false} ParseIsUnique(p: Parse, q: Parse)
    requires WellParsed(p) && WellParsed(q) && Source(p) == Source(q)
    ensures p == q
    decreases p
  {
    if p.Call? {
      CallInFront(NEEDLE, p.copy, p.args, Source(p.rest));
    }
    if q.Call? {
      CallInFront(NEEDLE, q.copy, q.args, Source(q.rest));
    }
    if p.Call? && q.Call? {
      ParseIsUnique(p.rest, q.rest);
    }
  }

  // ------------------------------------------------------------ what a call becomes

  lemma {:induction false} SeverityOfLevel(i: nat)
    requires i < |LEVELS|
    ensures SeverityOf(LEVELS[i].0, |LEVELS|) == Some(LEVELS[i].1)
  {
    var level := LEVELS[i].0;
    assert SeverityOf(level, 6) == if i == 5 then Some("TRACE") else SeverityOf(level, 5);
    assert i < 5 ==> SeverityOf(level, 5) == if i == 4 then Some("DEBUG") else SeverityOf(level, 4);
    assert i < 4 ==> SeverityOf(level, 4) == if i == 3 then Some("INFO") else SeverityOf(level, 3);
    assert i < 3 ==> SeverityOf(level, 3) == if i == 2 then Some("WARNING") else SeverityOf(level, 2);
    assert i < 2 ==> SeverityOf(level, 2) == if i == 1 then Some("ERROR") else SeverityOf(level, 1);
  }

  lemma SeverityIsPlain(i: nat)
    requires i < |LEVELS|
    ensures LEVELS[i].1 != "" && PlainText(LEVELS[i].1) && ' ' !in LEVELS[i].1
  {
  }

  lemma {:induction false} PlainIsArgument(s: string)
    requires s != "" && PlainText(s) && ' ' !in s
    ensures Argument(s, false)
  {
    ScanPlain(All, START, s);
    hide Scan, TopComma;
    assert PlainChar(s[0]) && PlainChar(s[|s| - 1]) && s[0] in s && s[|s| - 1] in s;
  }

  /** What is logged keeps the arguments of the original: the severity is followed by the
      other arguments, in order, with only their formats converted; an empty last argument is
      dropped. */
  lemma {:induction false} LoggedArguments(args: string, i: nat)
    requires i < |LEVELS| && |Split(args)| >= 2
    ensures Split(TlogArgs(LEVELS[i].1, Split(args)[1..])) ==
            WithoutEmptyTail([LEVELS[i].1] + ConvertArgs(Split(args)[1..]))
    ensures ConvertedAll(Split(args)[1..], ConvertArgs(Split(args)[1..]))
  {
    SeverityIsPlain(i);
    PlainIsArgument(LEVELS[i].1);
    SplitGivesArguments(args);
    ArgumentRest(Split(args));
    hide Split, Argument, TlogArgs, ConvertArgs, ConvertedAll;
    EmittedArguments(LEVELS[i].1, Split(args)[1..]);
  }

  /** A call with a level of the table becomes one `TLOG` call with that level's severity and
      the other arguments of the original. */
  lemma {:induction false} KnownLevelKeepsArguments(args: string, i: nat)
    requires i < |LEVELS| && |Split(args)| >= 2 && Strip(Split(args)[0]) == LEVELS[i].0
    ensures Emitted(Split(args)) == "TLOG(" + TlogArgs(LEVELS[i].1, Split(args)[1..]) + ")"
    ensures Split(TlogArgs(LEVELS[i].1, Split(args)[1..])) ==
            WithoutEmptyTail([LEVELS[i].1] + ConvertArgs(Split(args)[1..]))
    ensures ConvertedAll(Split(args)[1..], ConvertArgs(Split(args)[1..]))
  {
    SeverityOfLevel(i);
    LoggedArguments(args, i);
    hide Split, SeverityOf, TlogArgs, ConvertArgs, ConvertedAll;
  }

  lemma {:induction false} SeverityOfOther(level: string, n: nat)
    requires n <= |LEVELS| && forall i :: 0 <= i < |LEVELS| ==> LEVELS[i].0 != level
    ensures SeverityOf(level, n) == None
    decreases n
  {
    if n > 0 { SeverityOfOther(level, n - 1); }
  }

  /** The table: a level of the old macro gives the severity of the same name, a warning
      spelt out, and no other level is in it. */
  lemma {:induction false} SeverityTable(level: string)
    ensures SeverityOf(level, |LEVELS|) ==
            match level
            case "L_FATAL" => Some("FATAL")
            case "L_ERROR" => Some("ERROR")
            case "L_WARN" => Some("WARNING")
            case "L_INFO" => Some("INFO")
            case "L_DEBUG" => Some("DEBUG")
            case "L_TRACE" => Some("TRACE")
            case _ => None
  {
    hide SeverityOf;
    if i :| 0 <= i < |LEVELS| && LEVELS[i].0 == level {
      SeverityOfLevel(i);
    } else {
      SeverityOfOther(level, |LEVELS|);
      assert forall i :: 0 <= i < 6 ==> LEVELS[i].0 != level;
      assert LEVELS[0].0 != level && LEVELS[1].0 != level && LEVELS[2].0 != level;
      assert LEVELS[3].0 != level && LEVELS[4].0 != level && LEVELS[5].0 != level;
    }
  }

  lemma {:induction false} CaseLines(body: seq<string>, n: nat, i: nat)
    requires i < n <= |LEVELS|
    ensures |Cases(body, n)| == 3 * n
    ensures Cases(body, n)[3 * i] == "case " + LEVELS[i].0 + ":"
    ensures Cases(body, n)[3 * i + 1] == "    " + Tlog(LEVELS[i].1, body) + ";"
    ensures Cases(body, n)[3 * i + 2] == "    break;"
    decreases n
  {
    hide Tlog;
    if i < n - 1 {
      CaseLines(body, n - 1, i);
    } else if n > 1 {
      CaseLines(body, n - 1, 0);
    }
  }

  lemma {:induction false} SwitchShape(level: string, body: seq<string>, i: nat)
    requires i < |LEVELS|
    ensures var lines := SwitchLines(level, body);
            && |lines| == 3 * |LEVELS| + 4
            && lines[0] == "switch (" + level + ") {"
            && lines[1 + 3 * i] == "case " + LEVELS[i].0 + ":"
            && lines[2 + 3 * i] == "    " + Tlog(LEVELS[i].1, body) + ";"
            && lines[3 + 3 * i] == "    break;"
            && lines[3 * |LEVELS| + 1..] == ["default:", "    break;", "}"]
  {
    CaseLines(body, |LEVELS|, i);
    hide Cases, Tlog;
    var cases := Cases(body, |LEVELS|);
    var first := ["switch (" + level + ") {"];
    assert |first + cases| == 3 * |LEVELS| + 1;
    assert SwitchLines(level, body)[1 + 3 * i] == cases[3 * i];
  }

  /** What the call would become if its level were level `i` of the table. */
  lemma {:induction false} LevelInstead(body: seq<string>, i: nat)
    requires i < |LEVELS| && body != []
    ensures Emitted([LEVELS[i].0] + body) == Tlog(LEVELS[i].1, body)
  {
    SeverityOfLevel(i);
    LevelIsTrimmed(i);
    hide SeverityOf, Tlog;
    assert ([LEVELS[i].0] + body)[1..] == body;
  }

  lemma {:induction false} LevelIsTrimmed(i: nat)
    requires i < |LEVELS|
    ensures Strip(LEVELS[i].0) == LEVELS[i].0
  {
    StripTrimmed(LEVELS[i].0);
  }

  /** A call with any other level expression becomes a switch on that expression with a case
      for every level of the table, in order, and a default that does nothing.  The case of a
      level does what the call would become with that level in place of the expression, and
      so keeps the arguments of the original. */
  lemma {:induction false} OtherLevelKeepsArguments(args: string, i: nat)
    requires i < |LEVELS| && |Split(args)| >= 2
    requires forall k :: 0 <= k < |LEVELS| ==> LEVELS[k].0 != Strip(Split(args)[0])
    ensures var level, body := Strip(Split(args)[0]), Split(args)[1..];
            var lines := SwitchLines(level, body);
            && Emitted(Split(args)) == Lines(lines) && |lines| == 3 * |LEVELS| + 4
            && lines[0] == "switch (" + level + ") {"
            && lines[1 + 3 * i] == "case " + LEVELS[i].0 + ":"
            && lines[2 + 3 * i] == "    " + Emitted([LEVELS[i].0] + body) + ";"
            && lines[3 + 3 * i] == "    break;"
            && lines[3 * |LEVELS| + 1..] == ["default:", "    break;", "}"]
            && Emitted([LEVELS[i].0] + body) == "TLOG(" + TlogArgs(LEVELS[i].1, body) + ")"
            && Split(TlogArgs(LEVELS[i].1, body)) == WithoutEmptyTail([LEVELS[i].1] + ConvertArgs(body))
            && ConvertedAll(body, ConvertArgs(body))
  {
    var level, body := Strip(Split(args)[0]), Split(args)[1..];
    SeverityOfOther(level, |LEVELS|);
    LoggedArguments(args, i);
    LevelInstead(body, i);
    SwitchShape(level, body, i);
    hide Split, Strip, SeverityOf, TlogArgs, ConvertArgs, SwitchLines, ConvertedAll;
  }
}
