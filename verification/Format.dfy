/** Text search and replacement, and the conversion of printf placeholders. */
module Format {
  import opened Machine
  import opened Lexer
  import opened Splitter

  predicate OccursAt(text: string, pat: string, i: nat) {
    i + |pat| <= |text| && text[i..i + |pat|] == pat
  }

  /** `str.find`: the leftmost occurrence. */
  function Find(text: string, pat: string): Option<nat>
    decreases |text|
  {
    if |text| < |pat| then None
    else if text[..|pat|] == pat then Some(0)
    else if text == "" then None
    else Later(1, Find(text[1..], pat))
  }

  lemma OccursLater(text: string, pat: string, i: nat)
    requires text != ""
    ensures OccursAt(text, pat, i + 1) <==> OccursAt(text[1..], pat, i)
  {
  }

  lemma {:induction false} FindIff(text: string, pat: string)
    ensures Find(text, pat).Some? ==> OccursAt(text, pat, Find(text, pat).value)
    ensures forall i: nat :: OccursAt(text, pat, i) ==> Find(text, pat).Some? && Find(text, pat).value <= i
    decreases |text|
  {
    if |text| >= |pat| {
      assert text[0..0 + |pat|] == text[..|pat|];
    }
    if text != "" {
      FindIff(text[1..], pat);
      forall i: nat
        ensures OccursAt(text, pat, i + 1) <==> OccursAt(text[1..], pat, i)
      {
        OccursLater(text, pat, i);
      }
      forall i: nat | OccursAt(text, pat, i)
        ensures Find(text, pat).Some? && Find(text, pat).value <= i
      {
        if i > 0 {
          assert OccursAt(text, pat, (i - 1) + 1);
          assert OccursAt(text[1..], pat, i - 1);
        } else {
          assert text[..|pat|] == pat;
        }
      }
    }
  }

  /** `re.sub` for a pattern without metacharacters: leftmost, non-overlapping. */
  function ReplaceAll(text: string, pat: string, repl: string): string
    requires pat != ""
    decreases |text|
  {
    FindIff(text, pat);
    match Find(text, pat)
    case None => text
    case Some(i) => text[..i] + repl + ReplaceAll(text[i + |pat|..], pat, repl)
  }

  predicate Absent(text: string, pat: string) {
    Find(text, pat).None?
  }

  datatype Rule = Rule(pat: string, repl: string)

  const RULES: seq<Rule> := [
    Rule("%\" PRIu64", "{}\""), Rule("%\" PRId64", "{}\""), Rule("%\" PRIi64", "{}\""), Rule("%\" PRIx64", "{}\""),
    Rule("%zu", "{}"), Rule("%lld", "{}"), Rule("%ld", "{}"), Rule("%lu", "{}"), Rule("%d", "{}"),
    Rule("%u", "{}"), Rule("%s", "{}"), Rule("%p", "{}"), Rule("%x", "{}")]

  /** The table, in order: four placeholders that leave the literal and name a macro, and nine of
      one conversion, the longer ones first. */
  lemma RulesTable(k: nat)
    requires k < |RULES|
    ensures |RULES| == 13
    ensures k < 4 ==> RULES[k] == Rule("%\" PRI" + [['u', 'd', 'i', 'x'][k]] + "64", "{}\"")
    ensures k >= 4 ==> RULES[k] == Rule("%" + ["zu", "lld", "ld", "lu", "d", "u", "s", "p", "x"][k - 4], "{}")
  {
  }

  /** The first `n` rules, one after the other. */
  function ConvertBy(text: string, n: nat): string
    requires n <= |RULES|
  {
    if n == 0 then text
    else
      RulesAreRules(n - 1);
      ReplaceAll(ConvertBy(text, n - 1), RULES[n - 1].pat, RULES[n - 1].repl)
  }

  /** `convert_printf_fmt`. */
  method ConvertPrintfFmt(text: string) returns (r: string)
    ensures r == Convert(text)
    ensures forall k :: 0 <= k < |RULES| ==> Absent(r, RULES[k].pat)
  {
    r := text;
    for k := 0 to |RULES|
      invariant r == ConvertBy(text, k)
    {
      RulesAreRules(k);
      r := ReplaceAll(r, RULES[k].pat, RULES[k].repl);
    }
    ConvertedHasNoPlaceholder(text);
  }

  function Convert(text: string): string {
    ConvertBy(text, |RULES|)
  }

  // ------------------------------------------------------------ nothing is left over

  /** What every rule of the table satisfies. */
  predicate Placeholder(pat: string) {
    |pat| > 1 && pat[0] == '%' && '{' !in pat
  }

  predicate Substitute(repl: string) {
    repl != "" && repl[0] == '{' && '%' !in repl
  }

  lemma {:induction false} PartOfPart(s: string, lo: nat, hi: nat, i: nat, j: nat)
    requires lo <= hi <= |s| && i <= j <= hi - lo
    ensures s[lo..hi][i..j] == s[lo + i..lo + j]
  {
    var a, b := s[lo..hi][i..j], s[lo + i..lo + j];
    forall x | 0 <= x < |a|
      ensures a[x] == b[x]
    {
      assert s[lo..hi][i + x] == s[lo + i + x];
    }
  }

  lemma {:induction false} AbsentPart(text: string, q: string, lo: nat, hi: nat)
    requires lo <= hi <= |text| && Absent(text, q)
    ensures Absent(text[lo..hi], q)
  {
    FindIff(text, q);
    FindIff(text[lo..hi], q);
    forall j: nat | OccursAt(text[lo..hi], q, j)
      ensures OccursAt(text, q, lo + j)
    {
      PartOfPart(text, lo, hi, j, j + |q|);
    }
  }

  lemma {:induction false} AbsentBefore(text: string, pat: string)
    requires Find(text, pat).Some? && pat != ""
    ensures Find(text, pat).value + |pat| <= |text|
    ensures Absent(text[..Find(text, pat).value], pat)
  {
    var i := Find(text, pat).value;
    FindIff(text, pat);
    FindIff(text[..i], pat);
    forall j: nat | OccursAt(text[..i], pat, j)
      ensures OccursAt(text, pat, j)
    {
      assert text[..i][j..j + |pat|] == text[j..j + |pat|];
    }
  }

  /** No occurrence of `q` touches the substitute: `q` starts with a character that the
      substitute lacks, and the substitute with one that `q` lacks. */
  lemma {:induction false} NoneAcross(front: string, repl: string, back: string, q: string, j: nat)
    requires Placeholder(q) && Substitute(repl) && Absent(front, q) && Absent(back, q)
    ensures !OccursAt(front + repl + back, q, j)
  {
    var out, i := front + repl + back, |front|;
    FindIff(front, q);
    FindIff(back, q);
    if j + |q| <= |out| {
      var here := out[j..j + |q|];
      if j + |q| <= i {
        assert here == front[j..j + |q|];
        assert !OccursAt(front, q, j);
      } else if j < i {
        assert here[i - j] == repl[0];
        assert q[i - j] in q;
      } else if j < i + |repl| {
        assert here[0] == repl[j - i] && repl[j - i] in repl;
      } else {
        var m := j - i - |repl|;
        assert here == back[m..m + |q|];
        assert !OccursAt(back, q, m);
      }
    }
  }

  lemma {:induction false} AbsentAcross(front: string, repl: string, back: string, q: string)
    requires Placeholder(q) && Substitute(repl) && Absent(front, q) && Absent(back, q)
    ensures Absent(front + repl + back, q)
  {
    var out := front + repl + back;
    FindIff(out, q);
    if Find(out, q).Some? {
      NoneAcross(front, repl, back, q, Find(out, q).value);
    }
  }

  lemma {:induction false} ReplaceLeavesAbsent(text: string, pat: string, repl: string, q: string)
    requires Placeholder(pat) && Placeholder(q) && Substitute(repl)
    requires q == pat || Absent(text, q)
    ensures Absent(ReplaceAll(text, pat, repl), q)
    decreases |text|
  {
    hide Find;
    if Find(text, pat).Some? {
      var i := Find(text, pat).value;
      AbsentBefore(text, pat);
      var rest := text[i + |pat|..];
      if q != pat {
        AbsentPart(text, q, 0, i);
        AbsentPart(text, q, i + |pat|, |text|);
        assert text[0..i] == text[..i] && text[i + |pat|..|text|] == rest;
      }
      ReplaceLeavesAbsent(rest, pat, repl, q);
      AbsentAcross(text[..i], repl, ReplaceAll(rest, pat, repl), q);
    }
  }

  lemma RulesAreRules(k: nat)
    requires k < |RULES|
    ensures Placeholder(RULES[k].pat) && Substitute(RULES[k].repl)
  {
    RulesAreSimple(|RULES|);
    assert RULES[..|RULES|][k] == RULES[k];
    assert Simple(RULES[k]);
  }

  lemma {:induction false} ConvertByLeavesNone(text: string, n: nat, k: nat)
    requires k < n <= |RULES|
    ensures Absent(ConvertBy(text, n), RULES[k].pat)
    decreases n
  {
    hide ReplaceAll, Absent, Placeholder, Substitute;
    RulesAreRules(k);
    RulesAreRules(n - 1);
    if k < n - 1 {
      ConvertByLeavesNone(text, n - 1, k);
    }
    ReplaceLeavesAbsent(ConvertBy(text, n - 1), RULES[n - 1].pat, RULES[n - 1].repl, RULES[k].pat);
  }

  /** No placeholder survives: no rule makes a new occurrence of its own pattern or of an
      earlier one, although the rules run one after the other. */
  lemma {:induction false} ConvertedHasNoPlaceholder(text: string)
    ensures forall k :: 0 <= k < |RULES| ==> Absent(Convert(text), RULES[k].pat)
  {
    forall k | 0 <= k < |RULES|
      ensures Absent(Convert(text), RULES[k].pat)
    {
      ConvertByLeavesNone(text, |RULES|, k);
    }
  }

  lemma {:induction false} ConvertByNothing(text: string, n: nat)
    requires n <= |RULES| && forall k :: 0 <= k < n ==> Absent(text, RULES[k].pat)
    ensures ConvertBy(text, n) == text
    decreases n
  {
    if n > 0 {
      ConvertByNothing(text, n - 1);
    }
  }

  /** Converting what was already converted changes nothing. */
  lemma {:induction false} ConvertTwice(text: string)
    ensures Convert(Convert(text)) == Convert(text)
  {
    ConvertedHasNoPlaceholder(text);
    ConvertByNothing(Convert(text), |RULES|);
  }

  // ------------------------------------------------------------ one pass instead of many

  predicate StartsWith(text: string, pat: string) {
    |pat| <= |text| && text[..|pat|] == pat
  }

  /** The placeholder's percent sign is its first character only, and what replaces it has
      none. */
  predicate Simple(r: Rule) {
    Placeholder(r.pat) && Substitute(r.repl) && forall i :: 0 < i < |r.pat| ==> r.pat[i] != '%'
  }

  predicate AllSimple(rules: seq<Rule>) {
    forall k :: 0 <= k < |rules| ==> Simple(rules[k])
  }

  /** The first rule whose pattern the text starts with. */
  function RuleAt(text: string, rules: seq<Rule>): (k: nat)
    ensures k <= |rules| && (k < |rules| ==> StartsWith(text, rules[k].pat))
    decreases |rules|
  {
    if rules == [] then 0
    else if StartsWith(text, rules[0].pat) then 0
    else 1 + RuleAt(text, rules[1..])
  }

  /** One pass from left to right, with all rules at once. */
  function OnePass(text: string, rules: seq<Rule>): string
    requires AllSimple(rules)
    decreases |text|
  {
    if text == "" then ""
    else
      var k := RuleAt(text, rules);
      if k == |rules| then [text[0]] + OnePass(text[1..], rules)
      else rules[k].repl + OnePass(text[|rules[k].pat|..], rules)
  }

  /** The rules one after the other. */
  function InTurn(text: string, rules: seq<Rule>): string
    requires AllSimple(rules)
    decreases |rules|
  {
    if rules == [] then text
    else
      var last := rules[|rules| - 1];
      ReplaceAll(InTurn(text, rules[..|rules| - 1]), last.pat, last.repl)
  }

  lemma {:induction false} RuleAtMore(text: string, rules: seq<Rule>, r: Rule)
    ensures var k := RuleAt(text, rules);
            RuleAt(text, rules + [r]) == if k == |rules| && !StartsWith(text, r.pat) then k + 1 else k
    decreases |rules|
  {
    if rules == [] {
      assert rules + [r] == [r];
    } else {
      assert (rules + [r])[1..] == rules[1..] + [r];
      RuleAtMore(text, rules[1..], r);
    }
  }

  lemma {:induction false} ReplaceFront(pat: string, repl: string, text: string)
    requires pat != ""
    ensures ReplaceAll(pat + text, pat, repl) == repl + ReplaceAll(text, pat, repl)
  {
    assert (pat + text)[|pat|..] == text;
    assert Find(pat + text, pat) == Some(0);
    assert (pat + text)[..0] + repl == repl;
  }

  lemma {:induction false} FindBehind(c: char, text: string, pat: string)
    requires pat != "" && !StartsWith([c] + text, pat)
    ensures Find([c] + text, pat) == Later(1, Find(text, pat))
  {
    assert ([c] + text)[1..] == text;
    FindIff(text, pat);
  }

  lemma {:induction false} ReplaceFound(text: string, pat: string, repl: string)
    requires pat != ""
    ensures Find(text, pat).None? ==> ReplaceAll(text, pat, repl) == text
    ensures Find(text, pat).Some? ==>
              var i := Find(text, pat).value;
              && i + |pat| <= |text|
              && ReplaceAll(text, pat, repl) == text[..i] + repl + ReplaceAll(text[i + |pat|..], pat, repl)
  {
    FindIff(text, pat);
  }

  lemma Shifted(c: char, text: string, i: nat)
    requires i <= |text|
    ensures ([c] + text)[..i + 1] == [c] + text[..i] && ([c] + text)[i + 1..] == text[i..]
  {
  }

  lemma Regroup(c: char, front: string, middle: string, back: string)
    ensures [c] + front + middle + back == [c] + (front + middle + back)
  {
  }

  lemma {:induction false} ReplaceBehind(c: char, text: string, pat: string, repl: string)
    requires pat != "" && !StartsWith([c] + text, pat)
    ensures ReplaceAll([c] + text, pat, repl) == [c] + ReplaceAll(text, pat, repl)
  {
    hide Find, ReplaceAll, StartsWith;
    FindBehind(c, text, pat);
    ReplaceFound(text, pat, repl);
    ReplaceFound([c] + text, pat, repl);
    if Find(text, pat).Some? {
      var i := Find(text, pat).value;
      Shifted(c, text, i);
      Shifted(c, text, i + |pat|);
      Regroup(c, text[..i], repl, ReplaceAll(text[i + |pat|..], pat, repl));
    }
  }

  lemma {:induction false} ReplaceBehindAll(front: string, text: string, pat: string, repl: string)
    requires Placeholder(pat) && '%' !in front
    ensures ReplaceAll(front + text, pat, repl) == front + ReplaceAll(text, pat, repl)
    decreases |front|
  {
    hide ReplaceAll;
    if front == "" {
      assert front + text == text;
    } else {
      var c, rest := front[0], front[1..];
      assert front + text == [c] + (rest + text);
      assert front[0] in front;
      ReplaceBehindAll(rest, text, pat, repl);
      ReplaceBehind(c, rest + text, pat, repl);
    }
  }

  lemma NoPrefix(text: string, r: Rule)
    requires Simple(r) && text != "" && text[0] != '%'
    ensures !StartsWith(text, r.pat)
  {
    if |r.pat| <= |text| {
      assert text[..|r.pat|][0] == text[0];
    }
  }

  lemma {:induction false} NoRuleAt(text: string, rules: seq<Rule>)
    requires AllSimple(rules) && text != "" && text[0] != '%'
    ensures RuleAt(text, rules) == |rules|
    decreases |rules|
  {
    hide Simple, StartsWith;
    if rules != [] {
      NoPrefix(text, rules[0]);
      NoRuleAt(text, rules[1..]);
    }
  }

  lemma OnePassKeeps(text: string, rules: seq<Rule>)
    requires AllSimple(rules) && text != "" && RuleAt(text, rules) == |rules|
    ensures OnePass(text, rules) == [text[0]] + OnePass(text[1..], rules)
  {
    hide RuleAt, AllSimple;
  }

  /** Where there is no percent sign there is no placeholder, and the pass copies. */
  lemma {:induction false} OnePassCopies(front: string, text: string, rules: seq<Rule>)
    requires AllSimple(rules) && '%' !in front
    ensures OnePass(front + text, rules) == front + OnePass(text, rules)
    decreases |front|
  {
    hide OnePass, RuleAt, AllSimple;
    if front == "" {
      assert front + text == text;
    } else {
      var all, rest := front + text, front[1..];
      assert front[0] in front;
      assert all[1..] == rest + text && all[0] == front[0];
      NoRuleAt(all, rules);
      OnePassKeeps(all, rules);
      OnePassCopies(rest, text, rules);
    }
  }

  lemma PrefixTail(out: string, t: string)
    requires StartsWith(out, t) && t != ""
    ensures out != "" && out[0] == t[0] && StartsWith(out[1..], t[1..])
  {
    assert out[..|t|][0] == out[0];
    assert out[1..][..|t| - 1] == out[..|t|][1..];
  }

  lemma PrefixCons(text: string, t: string)
    requires text != "" && t != "" && text[0] == t[0] && StartsWith(text[1..], t[1..])
    ensures StartsWith(text, t)
  {
    assert text[..|t|] == [text[0]] + text[1..][..|t| - 1];
  }

  lemma OnePassFirst(text: string, rules: seq<Rule>)
    requires AllSimple(rules) && text != "" && RuleAt(text, rules) < |rules|
    ensures OnePass(text, rules) != "" && OnePass(text, rules)[0] == '{'
  {
    assert Simple(rules[RuleAt(text, rules)]);
    hide RuleAt;
  }

  /** What the pass puts out without a brace was there before. */
  lemma {:induction false} OnePassStarts(text: string, rules: seq<Rule>, t: string)
    requires AllSimple(rules) && StartsWith(OnePass(text, rules), t) && '{' !in t
    ensures StartsWith(text, t)
    decreases |text|
  {
    if t != "" {
      assert text != "" && t[0] in t;
      hide OnePass, RuleAt, StartsWith, AllSimple;
      PrefixTail(OnePass(text, rules), t);
      if RuleAt(text, rules) < |rules| {
        OnePassFirst(text, rules);
      } else {
        OnePassKeeps(text, rules);
        assert OnePass(text, rules)[1..] == OnePass(text[1..], rules);
        OnePassStarts(text[1..], rules, t[1..]);
        PrefixCons(text, t);
      }
    } else {
      EmptyPrefix(text);
    }
  }

  lemma EmptyPrefix(text: string)
    ensures StartsWith(text, "")
  {
  }

  lemma PatternParts(text: string, r: Rule)
    requires Simple(r) && StartsWith(text, r.pat)
    ensures '%' !in r.pat[1..] && r.pat == [text[0]] + r.pat[1..] && text[1..] == r.pat[1..] + text[|r.pat|..]
  {
    assert text[0] == text[..|r.pat|][0];
    assert text == r.pat + text[|r.pat|..];
  }

  /** The pass copies a placeholder that is not one of its own. */
  lemma {:induction false} OnePassAtRule(text: string, rules: seq<Rule>, r: Rule)
    requires AllSimple(rules) && Simple(r) && StartsWith(text, r.pat) && RuleAt(text, rules) == |rules|
    ensures OnePass(text, rules) == r.pat + OnePass(text[|r.pat|..], rules)
  {
    hide AllSimple, RuleAt;
    var tail, rest := r.pat[1..], text[|r.pat|..];
    assert OnePass(text, rules) == [text[0]] + OnePass(text[1..], rules);
    hide OnePass;
    PatternParts(text, r);
    OnePassCopies(tail, rest, rules);
  }

  lemma {:induction false} NotAfterPass(text: string, rules: seq<Rule>, r: Rule)
    requires AllSimple(rules) && Simple(r) && !StartsWith(text, r.pat)
    requires text != "" && RuleAt(text, rules) == |rules|
    ensures !StartsWith([text[0]] + OnePass(text[1..], rules), r.pat)
  {
    if StartsWith([text[0]] + OnePass(text[1..], rules), r.pat) {
      OnePassStarts(text, rules, r.pat);
    }
  }

  /** One more rule behind a pass is a pass with one more rule. */
  lemma {:induction false} OnePassThenRule(text: string, rules: seq<Rule>, r: Rule)
    requires AllSimple(rules) && Simple(r)
    ensures AllSimple(rules + [r])
    ensures ReplaceAll(OnePass(text, rules), r.pat, r.repl) == OnePass(text, rules + [r])
    decreases |text|
  {
    if text != "" {
      var k := RuleAt(text, rules);
      RuleAtMore(text, rules, r);
      hide RuleAt, ReplaceAll, StartsWith;
      if k < |rules| {
        assert Simple(rules[k]);
        var rest := text[|rules[k].pat|..];
        OnePassThenRule(rest, rules, r);
        ReplaceBehindAll(rules[k].repl, OnePass(rest, rules), r.pat, r.repl);
      } else if StartsWith(text, r.pat) {
        OnePassAtRule(text, rules, r);
        var rest := text[|r.pat|..];
        OnePassThenRule(rest, rules, r);
        ReplaceFront(r.pat, r.repl, OnePass(rest, rules));
      } else {
        OnePassThenRule(text[1..], rules, r);
        NotAfterPass(text, rules, r);
        ReplaceBehind(text[0], OnePass(text[1..], rules), r.pat, r.repl);
      }
    }
  }

  lemma {:induction false} OnePassOfNothing(text: string)
    ensures OnePass(text, []) == text
    decreases |text|
  {
    if text != "" {
      OnePassOfNothing(text[1..]);
    }
  }

  /** For any rules of this kind: although they are applied one after the other, each to what
      the ones before it left, the result is that of reading the text once and replacing
      every placeholder where it stands. */
  lemma {:induction false} InTurnIsOnePass(text: string, rules: seq<Rule>)
    requires AllSimple(rules)
    ensures InTurn(text, rules) == OnePass(text, rules)
    decreases |rules|
  {
    if rules == [] {
      OnePassOfNothing(text);
    } else {
      var front, last := rules[..|rules| - 1], rules[|rules| - 1];
      InTurnIsOnePass(text, front);
      OnePassThenRule(text, front, last);
      assert rules == front + [last];
    }
  }

  lemma MacroRulesAreSimple()
    ensures AllSimple(RULES[..4])
  {
    hide Simple;
    var front, back, repl := "%\" PRI", "64", "{}\"";
    MacroIsSimple('u');
    MacroIsSimple('d');
    MacroIsSimple('i');
    MacroIsSimple('x');
    assert RULES[0] == Rule(front + ['u'] + back, repl) && RULES[1] == Rule(front + ['d'] + back, repl);
    assert RULES[2] == Rule(front + ['i'] + back, repl) && RULES[3] == Rule(front + ['x'] + back, repl);
  }

  /** The rules that name a macro differ in one letter. */
  lemma MacroIsSimple(c: char)
    requires c != '%' && c != '{'
    ensures Simple(Rule("%\" PRI" + [c] + "64", "{}\""))
  {
  }

  lemma LongRulesAreSimple()
    ensures AllSimple(RULES[4..8])
  {
  }

  lemma ShortRulesAreSimple()
    ensures AllSimple(RULES[8..])
  {
  }

  lemma {:induction false} RulesAreSimple(n: nat)
    requires n <= |RULES|
    ensures AllSimple(RULES[..n])
  {
    MacroRulesAreSimple();
    LongRulesAreSimple();
    ShortRulesAreSimple();
    hide Simple;
    forall k | 0 <= k < n
      ensures Simple(RULES[k])
    {
      assert k < 4 ==> RULES[k] == RULES[..4][k];
      assert 4 <= k < 8 ==> RULES[k] == RULES[4..8][k - 4];
      assert 8 <= k ==> RULES[k] == RULES[8..][k - 8];
    }
  }

  lemma {:induction false} ConvertByInTurn(text: string, n: nat)
    requires n <= |RULES| && AllSimple(RULES[..n])
    ensures ConvertBy(text, n) == InTurn(text, RULES[..n])
    decreases n
  {
    hide AllSimple, ReplaceAll;
    if n > 0 {
      RulesAreSimple(n - 1);
      ConvertByInTurn(text, n - 1);
      assert RULES[..n][..n - 1] == RULES[..n - 1];
    }
  }

  /** The table is of that kind: no rule sees what another produced, and no two placeholders
      overlap. */
  lemma {:induction false} ConvertIsOnePass(text: string)
    ensures AllSimple(RULES) && Convert(text) == OnePass(text, RULES)
  {
    RulesAreSimple(|RULES|);
    assert RULES[..|RULES|] == RULES;
    ConvertByInTurn(text, |RULES|);
    InTurnIsOnePass(text, RULES);
  }

  // ------------------------------------------------------------ the text keeps its shape

  predicate PlainText(s: string) {
    forall i :: 0 <= i < |s| ==> PlainChar(s[i])
  }

  predicate PlainChar(c: char) {
    c == ' ' || c == '%' || '0' <= c <= '9' || 'A' <= c <= 'Z' || 'a' <= c <= 'z'
  }

  function Calm(st: Lex): Lex {
    if st.inString then st.(escape := false) else st
  }

  function Flipped(st: Lex): Lex {
    st.(inString := !st.inString)
  }

  lemma {:induction false} ScanPlain(b: Brackets, st: Lex, s: string)
    requires PlainText(s) && s != ""
    ensures Scan(b, st, s) == Calm(st) && TopComma(st, s).None?
    decreases |s|
  {
    if |s| > 1 {
      ScanPlain(b, Advance(b, st, s[0]), s[1..]);
    } else {
      assert s[1..] == "";
    }
  }

  lemma ScanBraces(b: Brackets, st: Lex)
    ensures Scan(b, st, "{}") == Calm(st) && TopComma(st, "{}").None?
  {
  }

  /** The two shapes of the rules: a placeholder inside a literal, and one that ends the
      literal and names a macro. */
  predicate Shaped(r: Rule) {
    || (r.repl == "{}" && |r.pat| > 1 && PlainText(r.pat))
    || (r.repl == "{}" + "\"" && |r.pat| > 2 && r.pat[..1] == "%" && r.pat[1] == '"' && PlainText(r.pat[2..]))
  }

  lemma RulesAreShaped(k: nat)
    requires k < |RULES|
    ensures Shaped(RULES[k])
  {
    hide Shaped;
    if k < 4 {
      MacroRulesAreShaped(k);
    } else {
      FormatRulesAreShaped(k);
    }
  }

  lemma MacroRulesAreShaped(k: nat)
    requires k < 4
    ensures Shaped(RULES[k])
  {
  }

  lemma FormatRulesAreShaped(k: nat)
    requires 4 <= k < |RULES|
    ensures Shaped(RULES[k])
  {
  }

  lemma ScanQuote(b: Brackets, st: Lex)
    requires !st.escape
    ensures Scan(b, st, "\"") == Flipped(st)
  {
  }

  lemma {:induction false} NoComma(st: Lex, s: string)
    requires ',' !in s
    ensures TopComma(st, s).None?
    decreases |s|
  {
    if s != "" {
      assert s[0] in s;
      NoComma(Advance(All, st, s[0]), s[1..]);
    }
  }

  lemma {:induction false} RuleLacksComma(r: Rule)
    requires Shaped(r)
    ensures ',' !in r.pat && ',' !in r.repl
  {
    if r.repl != "{}" {
      assert r.pat == "%" + ("\"" + r.pat[2..]);
    }
  }

  /** Reading the pattern or its substitute makes no difference to what follows. */
  lemma {:induction false} RuleIsNeutral(b: Brackets, r: Rule, st: Lex)
    requires Shaped(r) && Sound(st)
    ensures Scan(b, st, r.pat) == Scan(b, st, r.repl)
  {
    hide Scan;
    ScanBraces(b, st);
    if r.repl == "{}" {
      ScanPlain(b, st, r.pat);
    } else {
      var c, tail := Calm(st), r.pat[2..];
      ScanQuote(b, c);
      ScanConcat(b, st, "{}", "\"");
      assert r.pat == "%" + ("\"" + tail);
      ScanPlain(b, st, "%");
      ScanConcat(b, st, "%", "\"" + tail);
      ScanConcat(b, c, "\"", tail);
      ScanPlain(b, Flipped(c), tail);
    }
  }

  lemma {:induction false} ReplaceIsNeutral(text: string, r: Rule, st: Lex)
    requires Shaped(r) && Sound(st)
    ensures Scan(All, st, ReplaceAll(text, r.pat, r.repl)) == Scan(All, st, text)
    ensures TopComma(st, ReplaceAll(text, r.pat, r.repl)).None? <==> TopComma(st, text).None?
    decreases |text|
  {
    hide Find, Scan, TopComma;
    if Find(text, r.pat).Some? {
      AbsentBefore(text, r.pat);
      FindIff(text, r.pat);
      var i := Find(text, r.pat).value;
      var front, rest := text[..i], text[i + |r.pat|..];
      assert text == front + r.pat + rest;
      Across(front, r.pat, rest, st);
      Across(front, r.repl, ReplaceAll(rest, r.pat, r.repl), st);
      var st1 := Scan(All, st, front);
      ScanSound(All, st, front);
      RuleIsNeutral(All, r, st1);
      RuleLacksComma(r);
      NoComma(st1, r.pat);
      NoComma(st1, r.repl);
      ScanSound(All, st1, r.pat);
      ReplaceIsNeutral(rest, r, Scan(All, st1, r.pat));
    }
  }

  lemma {:induction false} Across(a: string, b: string, c: string, st: Lex)
    ensures var st1 := Scan(All, st, a);
            var st2 := Scan(All, st1, b);
            && Scan(All, st, a + b + c) == Scan(All, st2, c)
            && (TopComma(st, a + b + c).None? <==>
                TopComma(st, a).None? && TopComma(st1, b).None? && TopComma(st2, c).None?)
  {
    hide Scan, TopComma;
    ScanConcat(All, st, a + b, c);
    ScanConcat(All, st, a, b);
    CommaConcat(st, a + b, c);
    CommaConcat(st, a, b);
  }

  predicate SolidLast(s: string) {
    s != "" && !IsSpace(s[|s| - 1])
  }

  predicate SolidEnds(s: string) {
    SolidLast(s) && s[0] == '"'
  }

  lemma SolidParts(front: string, mid: string, back: string)
    requires SolidLast(mid) && (back == "" || SolidLast(back))
    ensures SolidLast(front + mid + back)
  {
  }

  lemma SolidTail(s: string, k: nat)
    requires SolidLast(s) && k <= |s|
    ensures s[k..] == "" || SolidLast(s[k..])
  {
  }

  lemma SolidSubstitute(r: Rule)
    requires Shaped(r)
    ensures SolidLast(r.repl)
  {
  }

  lemma ReplaceInEmpty(r: Rule)
    requires r.pat != ""
    ensures ReplaceAll("", r.pat, r.repl) == ""
  {
  }

  lemma {:induction false} ReplaceKeepsLast(text: string, r: Rule)
    requires Shaped(r) && SolidLast(text)
    ensures SolidLast(ReplaceAll(text, r.pat, r.repl))
    decreases |text|
  {
    hide SolidLast, Find;
    if Find(text, r.pat).Some? {
      AbsentBefore(text, r.pat);
      var i := Find(text, r.pat).value;
      var rest := text[i + |r.pat|..];
      SolidTail(text, i + |r.pat|);
      SolidSubstitute(r);
      if rest != "" {
        ReplaceKeepsLast(rest, r);
      } else {
        ReplaceInEmpty(r);
      }
      SolidParts(text[..i], r.repl, ReplaceAll(rest, r.pat, r.repl));
    }
  }

  lemma {:induction false} ReplaceKeepsEnds(text: string, r: Rule)
    requires Shaped(r) && Placeholder(r.pat) && SolidEnds(text)
    ensures SolidEnds(ReplaceAll(text, r.pat, r.repl))
  {
    ReplaceKeepsLast(text, r);
    FindIff(text, r.pat);
  }

  lemma {:induction false} ConvertByKeepsShape(text: string, n: nat)
    requires n <= |RULES| && SolidEnds(text)
    ensures SolidEnds(ConvertBy(text, n))
    ensures Scan(All, START, ConvertBy(text, n)) == Scan(All, START, text)
    ensures NoTopComma(ConvertBy(text, n)) <==> NoTopComma(text)
    decreases n
  {
    hide ReplaceAll, Scan, TopComma, SolidEnds, Shaped, Placeholder, Substitute;
    if n > 0 {
      ConvertByKeepsShape(text, n - 1);
      RulesAreShaped(n - 1);
      RulesAreRules(n - 1);
      ReplaceKeepsEnds(ConvertBy(text, n - 1), RULES[n - 1]);
      ReplaceIsNeutral(ConvertBy(text, n - 1), RULES[n - 1], START);
    }
  }

  // ------------------------------------------------------------ whole argument lists

  function ConvertArg(arg: string): string {
    if TrimLeft(arg) != "" && TrimLeft(arg)[0] == '"' then Convert(arg) else arg
  }

  function ConvertArgs(args: seq<string>): (r: seq<string>)
    ensures |r| == |args|
  {
    seq(|args|, i requires 0 <= i < |args| => ConvertArg(args[i]))
  }

  /** The argument is a format: its first character that is not white space is a quote. */
  ghost predicate IsFormat(arg: string) {
    exists i :: 0 <= i < |arg| && arg[i] == '"' && AllSpace(arg[..i])
  }

  /** A format has every placeholder replaced, in one pass from the left, and none is left in
      it; any other argument stays as it is. */
  ghost predicate Converted(arg: string, out: string) {
    if IsFormat(arg) then
      AllSimple(RULES) && out == OnePass(arg, RULES) && forall k :: 0 <= k < |RULES| ==> Absent(out, RULES[k].pat)
    else out == arg
  }

  ghost predicate ConvertedAll(args: seq<string>, out: seq<string>) {
    |out| == |args| && forall i :: 0 <= i < |args| ==> Converted(args[i], out[i])
  }

  lemma {:induction false} FormatStep(arg: string)
    requires arg != ""
    ensures IsFormat(arg) <==> arg[0] == '"' || (IsSpace(arg[0]) && IsFormat(arg[1..]))
  {
    hide IsSpace;
    assert arg[0] == '"' ==> AllSpace(arg[..0]);
    forall i | 0 < i < |arg|
      ensures AllSpace(arg[..i]) <==> IsSpace(arg[0]) && AllSpace(arg[1..][..i - 1])
    {
      assert arg[..i] == [arg[0]] + arg[1..][..i - 1];
    }
    if IsSpace(arg[0]) && IsFormat(arg[1..]) {
      var i :| 0 <= i < |arg[1..]| && arg[1..][i] == '"' && AllSpace(arg[1..][..i]);
      assert arg[i + 1] == '"' && AllSpace(arg[..i + 1]);
    }
  }

  lemma {:induction false} FormatIff(arg: string)
    ensures IsFormat(arg) <==> TrimLeft(arg) != "" && TrimLeft(arg)[0] == '"'
    decreases |arg|
  {
    QuoteIsNoSpace();
    hide IsSpace;
    if arg != "" {
      FormatStep(arg);
      FormatIff(arg[1..]);
      hide IsFormat;
    }
  }

  lemma QuoteIsNoSpace()
    ensures !IsSpace('"')
  {
  }

  /** What converting an argument list does, argument by argument. */
  lemma {:induction false} ArgumentsConverted(args: seq<string>)
    ensures ConvertedAll(args, ConvertArgs(args))
  {
    hide IsFormat, Convert, OnePass, Absent, AllSimple;
    forall i | 0 <= i < |args|
      ensures Converted(args[i], ConvertArgs(args)[i])
    {
      FormatIff(args[i]);
      ConvertIsOnePass(args[i]);
      ConvertedHasNoPlaceholder(args[i]);
    }
  }

  lemma {:induction false} ConvertKeepsArgument(arg: string, last: bool)
    requires Argument(arg, last)
    ensures Argument(ConvertArg(arg), last)
    ensures ConvertArg(arg) == "" <==> arg == ""
  {
    if ConvertArg(arg) != arg {
      ConvertByKeepsShape(arg, |RULES|);
    }
  }

  /** `convert_format_args`. */
  method ConvertFormatArgs(args: seq<string>) returns (r: string)
    ensures r == Join(ConvertArgs(args)) && ConvertedAll(args, ConvertArgs(args))
  {
    hide ConvertedAll;
    ArgumentsConverted(args);
    var converted: seq<string> := [];
    for i := 0 to |args|
      invariant converted == ConvertArgs(args[..i])
    {
      var stripped := TrimLeft(args[i]);
      if stripped != "" && stripped[0] == '"' {
        var c := ConvertPrintfFmt(args[i]);
        converted := converted + [c];
      } else {
        converted := converted + [args[i]];
      }
      assert args[..i + 1] == args[..i] + [args[i]];
    }
    assert args[..|args|] == args;
    r := Join(converted);
  }

  function TlogArgs(severity: string, args: seq<string>): string {
    severity + ", " + Join(ConvertArgs(args))
  }

  /** `emit_tlog`. */
  method EmitTlog(severity: string, args: seq<string>) returns (r: string)
    ensures r == "TLOG(" + TlogArgs(severity, args) + ")"
    ensures r == "TLOG(" + (severity + ", " + Join(ConvertArgs(args))) + ")" && ConvertedAll(args, ConvertArgs(args))
  {
    hide ConvertedAll;
    var body := ConvertFormatArgs(args);
    r := "TLOG(" + (severity + ", " + body) + ")";
  }

  lemma {:induction false} ConvertKeepsList(args: seq<string>)
    requires ArgumentList(args)
    ensures ArgumentList(ConvertArgs(args))
    ensures args != [] ==> (ConvertArgs(args)[|args| - 1] == "" <==> args[|args| - 1] == "")
  {
    forall i | 0 <= i < |args|
      ensures Argument(ConvertArgs(args)[i], i == |args| - 1)
      ensures ConvertArgs(args)[i] == "" <==> args[i] == ""
    {
      assert Argument(args[i], i == |args| - 1);
      ConvertKeepsArgument(args[i], i == |args| - 1);
    }
  }

  lemma ArgumentCons(a: string, rest: seq<string>)
    requires Argument(a, false) && rest != [] && ArgumentList(rest)
    ensures ArgumentList([a] + rest)
  {
  }

  /** The emitted call has the severity and then exactly the arguments of the original, each
      converted: conversion neither merges nor splits arguments.  An empty last argument is
      lost, as it is when the original is split. */
  lemma {:induction false} EmittedArguments(severity: string, args: seq<string>)
    requires Argument(severity, false) && args != [] && ArgumentList(args)
    ensures Split(TlogArgs(severity, args)) == WithoutEmptyTail([severity] + ConvertArgs(args))
    ensures ConvertedAll(args, ConvertArgs(args))
    ensures args[|args| - 1] != "" ==> Split(TlogArgs(severity, args)) == [severity] + ConvertArgs(args)
  {
    hide Argument, ArgumentList, Split, ConvertArg, ConvertedAll;
    ConvertKeepsList(args);
    ArgumentsConverted(args);
    ArgumentCons(severity, ConvertArgs(args));
    var all := [severity] + ConvertArgs(args);
    assert all[1..] == ConvertArgs(args);
    assert Join(all) == TlogArgs(severity, args);
    SplitJoin(all);
  }
}
