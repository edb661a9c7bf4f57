/** Splitting an argument list at its top-level commas, and joining it again. */
module Splitter {
  import opened Machine
  import opened Lexer
  import opened Tokens

  /** The characters that Python's `str.strip` removes. */
  predicate IsSpace(c: char) {
    || '\t' <= c <= '\r' || '\U{1C}' <= c <= ' ' || c == '\U{85}' || c == '\U{A0}'
    || c == '\U{1680}' || '\U{2000}' <= c <= '\U{200A}' || c == '\U{2028}' || c == '\U{2029}'
    || c == '\U{202F}' || c == '\U{205F}' || c == '\U{3000}'
  }

  /** Those characters one by one: the white space of ASCII with its four separators, and that
      of the rest of Unicode. */
  const SPACES: string :=
    "\U{9}\U{A}\U{B}\U{C}\U{D}\U{1C}\U{1D}\U{1E}\U{1F}\U{20}\U{85}\U{A0}\U{1680}\U{2000}\U{2001}" +
    "\U{2002}\U{2003}\U{2004}\U{2005}\U{2006}\U{2007}\U{2008}\U{2009}\U{200A}" +
    "\U{2028}\U{2029}\U{202F}\U{205F}\U{3000}"

  lemma SpaceIff(c: char)
    ensures IsSpace(c) <==> c in SPACES
  {
  }

  function TrimLeft(s: string): string {
    if s != "" && IsSpace(s[0]) then TrimLeft(s[1..]) else s
  }

  function TrimRight(s: string): string {
    if s != "" && IsSpace(s[|s| - 1]) then TrimRight(s[..|s| - 1]) else s
  }

  function Strip(s: string): string {
    TrimRight(TrimLeft(s))
  }

  predicate Trimmed(s: string) {
    s != "" ==> !IsSpace(s[0]) && !IsSpace(s[|s| - 1])
  }

  // ------------------------------------------------------------ top-level commas

  predicate CommaHere(st: Lex, c: char) {
    !st.inString && c == ',' && st.depth == 0
  }

  function TopComma(st: Lex, s: string): (r: Option<nat>)
    ensures r.Some? ==> r.value < |s| && s[r.value] == ','
    decreases |s|
  {
    if s == "" then None
    else if CommaHere(st, s[0]) then Some(0)
    else Later(1, TopComma(Advance(All, st, s[0]), s[1..]))
  }

  /** The text between top-level commas. */
  function Pieces(s: string): (ps: seq<string>)
    ensures ps != []
    decreases |s|
  {
    match TopComma(START, s)
    case None => [s]
    case Some(k) => [s[..k]] + Pieces(s[k + 1..])
  }

  /** Trim the pieces, and drop the last one if nothing is left of it. */
  function Finish(ps: seq<string>): seq<string>
    requires ps != []
  {
    if |ps| > 1 then [Strip(ps[0])] + Finish(ps[1..])
    else if Strip(ps[0]) == "" then []
    else [Strip(ps[0])]
  }

  function StripAll(ps: seq<string>): (r: seq<string>)
    ensures |r| == |ps|
  {
    if ps == [] then [] else StripAll(ps[..|ps| - 1]) + [Strip(ps[|ps| - 1])]
  }

  lemma {:induction false} FinishLast(ps: seq<string>, last: string)
    ensures Finish(ps + [last]) == StripAll(ps) + Finish([last])
    decreases |ps|
  {
    if ps == [] {
      assert ps + [last] == [last];
    } else {
      FinishLast(ps[1..], last);
      assert (ps + [last])[1..] == ps[1..] + [last];
      StripAllCons(ps);
    }
  }

  lemma FinishOne(last: string)
    ensures Finish([last]) == if Strip(last) == "" then [] else [Strip(last)]
  {
  }

  lemma {:induction false} StripAllCons(ps: seq<string>)
    requires ps != []
    ensures StripAll(ps) == [Strip(ps[0])] + StripAll(ps[1..])
    decreases |ps|
  {
    if |ps| > 1 {
      var front := ps[..|ps| - 1];
      StripAllCons(front);
      assert front[1..] == ps[1..][..|ps| - 2];
    }
  }

  function Split(s: string): seq<string> {
    Finish(Pieces(s))
  }

  function Join(parts: seq<string>): string {
    if parts == [] then ""
    else if |parts| == 1 then parts[0]
    else parts[0] + ", " + Join(parts[1..])
  }

  /** Every part but the last has a comma and a blank behind it. */
  lemma {:induction false} JoinLast(parts: seq<string>, last: string)
    ensures Join(parts + [last]) == (if parts == [] then "" else Join(parts) + ", ") + last
    decreases |parts|
  {
    if parts == [] {
      assert parts + [last] == [last];
    } else {
      JoinLast(parts[1..], last);
      assert (parts + [last])[1..] == parts[1..] + [last];
    }
  }

  // ------------------------------------------------------------ the loop

  /** One pass over the characters, with the piece read so far. */
  function PiecesGo(st: Lex, piece: string, s: string): (ps: seq<string>)
    ensures ps != []
    decreases |s|
  {
    if s == "" then [piece]
    else if CommaHere(st, s[0]) then [piece] + PiecesGo(START, "", s[1..])
    else PiecesGo(Advance(All, st, s[0]), piece + [s[0]], s[1..])
  }

  lemma PiecesGoStep(st: Lex, piece: string, s: string)
    requires s != ""
    ensures PiecesGo(st, piece, s) ==
            if CommaHere(st, s[0]) then [piece] + PiecesGo(START, "", s[1..])
            else PiecesGo(Advance(All, st, s[0]), piece + [s[0]], s[1..])
  {
  }

  lemma TopCommaStep(st: Lex, s: string)
    requires s != ""
    ensures TopComma(st, s) ==
            if CommaHere(st, s[0]) then Some(0) else Later(1, TopComma(Advance(All, st, s[0]), s[1..]))
  {
  }

  lemma MorePiece(piece: string, s: string, k: nat)
    requires k < |s|
    ensures piece + [s[0]] + s[1..][..k] == piece + s[..k + 1]
    ensures k + 1 < |s| ==> s[1..][k + 1..] == s[k + 2..]
  {
  }

  /** The pieces of a text, the first with `piece` in front of it. */
  function Cuts(st: Lex, piece: string, s: string): seq<string> {
    match TopComma(st, s)
    case None => [piece + s]
    case Some(k) => [piece + s[..k]] + Pieces(s[k + 1..])
  }

  lemma CutsEnd(st: Lex, piece: string)
    ensures Cuts(st, piece, "") == [piece]
  {
    assert piece + "" == piece;
  }

  lemma CutsStep(st: Lex, piece: string, s: string)
    requires s != ""
    ensures Cuts(st, piece, s) ==
            if CommaHere(st, s[0]) then [piece] + Pieces(s[1..])
            else Cuts(Advance(All, st, s[0]), piece + [s[0]], s[1..])
  {
    hide TopComma, Pieces;
    TopCommaStep(st, s);
    if CommaHere(st, s[0]) {
      assert piece + s[..0] == piece;
    } else {
      var rest, k := s[1..], TopComma(Advance(All, st, s[0]), s[1..]);
      if k.Some? {
        MorePiece(piece, s, k.value);
      } else {
        MorePiece(piece, s, |rest|);
        assert rest[..|rest|] == rest && s[..|s|] == s;
      }
    }
  }

  lemma {:induction false} PiecesGoFrom(st: Lex, piece: string, s: string)
    ensures PiecesGo(st, piece, s) == Cuts(st, piece, s)
    decreases |s|, 0
  {
    if s == "" {
      CutsEnd(st, piece);
    } else {
      hide PiecesGo, Cuts, Pieces;
      PiecesGoStep(st, piece, s);
      CutsStep(st, piece, s);
      if CommaHere(st, s[0]) {
        PiecesGoIsPieces(s[1..]);
      } else {
        PiecesGoFrom(Advance(All, st, s[0]), piece + [s[0]], s[1..]);
      }
    }
  }

  lemma {:induction false} PiecesGoIsPieces(s: string)
    ensures PiecesGo(START, "", s) == Pieces(s)
    decreases |s|, 1
  {
    hide PiecesGo;
    PiecesGoFrom(START, "", s);
    CutsOfAll(s);
  }

  lemma CutsOfAll(s: string)
    ensures Cuts(START, "", s) == Pieces(s)
  {
    assert "" + s == s;
    if TopComma(START, s).Some? {
      assert "" + s[..TopComma(START, s).value] == s[..TopComma(START, s).value];
    }
  }

  function Ahead(st: Lex, args: string, start: nat, i: nat): seq<string>
    requires start <= i <= |args|
  {
    PiecesGo(st, args[start..i], args[i..])
  }

  lemma SliceStep(args: string, start: nat, i: nat)
    requires start <= i < |args|
    ensures args[i..][0] == args[i] && args[i..][1..] == args[i + 1..]
    ensures args[start..i] + [args[i]] == args[start..i + 1] && args[i + 1..i + 1] == ""
  {
  }

  lemma {:induction false} AheadStep(st: Lex, args: string, start: nat, i: nat)
    requires start <= i < |args|
    ensures Ahead(st, args, start, i) ==
            if CommaHere(st, args[i]) then [args[start..i]] + Ahead(START, args, i + 1, i + 1)
            else Ahead(Advance(All, st, args[i]), args, start, i + 1)
  {
    hide PiecesGo;
    var s := args[i..];
    SliceStep(args, start, i);
    PiecesGoStep(st, args[start..i], s);
  }

  lemma {:induction false} AheadStart(args: string)
    ensures Ahead(START, args, 0, 0) == Pieces(args)
  {
    hide PiecesGo, Pieces;
    assert args[0..0] == "" && args[0..] == args;
    PiecesGoIsPieces(args);
  }

  lemma {:induction false} AheadEnd(st: Lex, args: string, start: nat)
    requires start <= |args|
    ensures Ahead(st, args, start, |args|) == [args[start..]]
  {
    assert args[start..|args|] == args[start..];
  }

  // ------------------------------------------------------------ white space

  predicate AllSpace(s: string) {
    forall i :: 0 <= i < |s| ==> IsSpace(s[i])
  }

  lemma {:induction false} TrimLeftCuts(s: string) returns (l: string)
    ensures AllSpace(l) && s == l + TrimLeft(s)
    ensures TrimLeft(s) != "" ==> !IsSpace(TrimLeft(s)[0])
    decreases |s|
  {
    l := "";
    if s != "" && IsSpace(s[0]) {
      l := TrimLeftCuts(s[1..]);
      l := [s[0]] + l;
    }
  }

  lemma {:induction false} TrimRightCuts(s: string) returns (r: string)
    ensures AllSpace(r) && s == TrimRight(s) + r
    ensures TrimRight(s) != "" ==> !IsSpace(TrimRight(s)[|TrimRight(s)| - 1])
    decreases |s|
  {
    r := "";
    if s != "" && IsSpace(s[|s| - 1]) {
      r := TrimRightCuts(s[..|s| - 1]);
      r := r + [s[|s| - 1]];
      assert s == s[..|s| - 1] + [s[|s| - 1]];
    }
  }

  lemma {:induction false} StripCuts(s: string) returns (l: string, r: string)
    ensures AllSpace(l) && AllSpace(r) && Trimmed(Strip(s))
    ensures s == l + Strip(s) + r
  {
    l := TrimLeftCuts(s);
    r := TrimRightCuts(TrimLeft(s));
  }

  lemma {:induction false} StripSpace(l: string, s: string)
    requires AllSpace(l)
    ensures Strip(l + s) == Strip(s)
    decreases |l|
  {
    if l == "" {
      assert l + s == s;
    } else {
      assert (l + s)[1..] == l[1..] + s;
      StripSpace(l[1..], s);
    }
  }

  /** White space does not change the state outside a literal, and does not leave one. */
  lemma {:induction false} ScanSpace(st: Lex, s: string)
    requires AllSpace(s)
    ensures TopComma(st, s).None? && Scan(All, st, s).inString == st.inString
    ensures !st.inString ==> Scan(All, st, s) == st
    decreases |s|
  {
    if s != "" { ScanSpace(Advance(All, st, s[0]), s[1..]); }
  }

  // ------------------------------------------------------------ round trip

  lemma {:induction false} CommaConcat(st: Lex, s: string, t: string)
    ensures TopComma(st, s + t) ==
            if TopComma(st, s).Some? then TopComma(st, s)
            else Later(|s|, TopComma(Scan(All, st, s), t))
    decreases |s|
  {
    if s == "" {
      assert s + t == t;
    } else {
      assert (s + t)[1..] == s[1..] + t;
      CommaConcat(Advance(All, st, s[0]), s[1..], t);
    }
  }

  lemma {:induction false} FirstComma(st: Lex, s: string)
    requires TopComma(st, s).Some?
    ensures var k := TopComma(st, s).value;
            TopComma(st, s[..k]).None? && CommaHere(Scan(All, st, s[..k]), s[k])
    decreases |s|
  {
    var k := TopComma(st, s).value;
    if !CommaHere(st, s[0]) {
      FirstComma(Advance(All, st, s[0]), s[1..]);
      assert s[..k][1..] == s[1..][..k - 1];
    }
  }

  predicate NoTopComma(s: string) {
    TopComma(START, s).None?
  }

  predicate ClosedText(s: string) {
    Scan(All, START, s) == START
  }

  /** What an argument must be to stand in a list: trimmed, without a comma of its own at
      the top level, and, unless it is the last, with its brackets and quotes closed. */
  predicate Argument(s: string, last: bool) {
    Trimmed(s) && NoTopComma(s) && (last || ClosedText(s))
  }

  predicate ArgumentList(args: seq<string>) {
    forall i :: 0 <= i < |args| ==> Argument(args[i], i == |args| - 1)
  }

  lemma {:induction false} StripArgument(s: string)
    requires NoTopComma(s)
    ensures NoTopComma(Strip(s)) && Trimmed(Strip(s))
    ensures ClosedText(s) ==> ClosedText(Strip(s))
  {
    var l, r := StripCuts(s);
    var m := Strip(s);
    CommaConcat(START, l + m, r);
    CommaConcat(START, l, m);
    ScanSpace(START, l);
    ScanConcat(All, START, l + m, r);
    ScanConcat(All, START, l, m);
    ScanSpace(Scan(All, START, m), r);
  }

  predicate ArgumentPieces(ps: seq<string>) {
    forall i :: 0 <= i < |ps| ==> NoTopComma(ps[i]) && (i < |ps| - 1 ==> ClosedText(ps[i]))
  }

  lemma {:induction false} PiecesAreArguments(s: string)
    ensures ArgumentPieces(Pieces(s))
    decreases |s|
  {
    if TopComma(START, s).Some? {
      var k := TopComma(START, s).value;
      FirstComma(START, s);
      ScanSound(All, START, s[..k]);
      PiecesAreArguments(s[k + 1..]);
    }
  }

  lemma {:induction false} FinishArguments(ps: seq<string>)
    requires ps != [] && ArgumentPieces(ps)
    ensures ArgumentList(Finish(ps))
    decreases |ps|
  {
    StripArgument(ps[0]);
    if |ps| > 1 {
      FinishArguments(ps[1..]);
    }
  }

  /** Whatever is split, the result is an argument list. */
  lemma {:induction false} SplitGivesArguments(s: string)
    ensures ArgumentList(Split(s))
  {
    PiecesAreArguments(s);
    FinishArguments(Pieces(s));
  }

  lemma {:induction false} PiecesAt(a: string, behind: string)
    requires NoTopComma(a) && ClosedText(a)
    ensures Pieces(a + "," + behind) == [a] + Pieces(behind)
  {
    var s := a + "," + behind;
    assert s == a + ("," + behind);
    CommaConcat(START, a, "," + behind);
    assert s[..|a|] == a && s[|a| + 1..] == behind;
  }

  /** The pieces with commas between them. */
  function Commas(ps: seq<string>): string {
    if ps == [] then "" else if |ps| == 1 then ps[0] else ps[0] + "," + Commas(ps[1..])
  }

  lemma {:induction false} PiecesRebuild(s: string)
    ensures Commas(Pieces(s)) == s
    decreases |s|
  {
    if TopComma(START, s).Some? {
      var k := TopComma(START, s).value;
      PiecesRebuild(s[k + 1..]);
      assert s == s[..k] + "," + s[k + 1..];
    }
  }

  lemma {:induction false} PiecesOfCommas(ps: seq<string>)
    requires ps != [] && ArgumentPieces(ps)
    ensures Pieces(Commas(ps)) == ps
    decreases |ps|
  {
    assert NoTopComma(ps[0]) && (|ps| > 1 ==> ClosedText(ps[0]));
    if |ps| > 1 {
      PiecesOfCommas(ps[1..]);
      PiecesAt(ps[0], Commas(ps[1..]));
    }
  }

  lemma {:induction false} ArgumentPiecesIff(s: string, ps: seq<string>)
    ensures Pieces(s) == ps <==> ps != [] && ArgumentPieces(ps) && Commas(ps) == s
  {
    PiecesRebuild(s);
    PiecesAreArguments(s);
    if ps != [] && ArgumentPieces(ps) {
      PiecesOfCommas(ps);
    }
  }

  // ------------------------------------------------------------ in terms of tokens

  lemma {:induction false} CommaHereIff(s: string, k: nat)
    requires k < |s|
    ensures CommaHere(Scan(All, START, s[..k]), s[k]) <==> TopCommaAt(s, k)
  {
    hide Scan, Reads;
    ScanSound(All, START, s[..k]);
    ReadsIff(s[..k], 0);
  }

  /** The comma the splitter finds is the first one outside literals with as many opening as
      closing brackets of any kind in front of it. */
  lemma {:induction false} TopCommaIff(s: string, k: nat)
    ensures TopComma(START, s) == Some(k) <==> TopCommaAt(s, k) && forall j: nat :: j < k ==> !TopCommaAt(s, j)
    ensures NoTopComma(s) <==> forall j: nat :: !TopCommaAt(s, j)
  {
    hide TopComma, Scan, TopCommaAt;
    var r := TopComma(START, s);
    if r.Some? {
      FoundComma(s);
    }
    forall j: nat | TopCommaAt(s, j)
      ensures r.Some? && r.value <= j
    {
      CommaNotPassed(s, j);
    }
  }

  lemma {:induction false} FoundComma(s: string)
    requires TopComma(START, s).Some?
    ensures TopCommaAt(s, TopComma(START, s).value)
  {
    FirstComma(START, s);
    CommaHereIff(s, TopComma(START, s).value);
  }

  lemma {:induction false} CommaNotPassed(s: string, j: nat)
    requires TopCommaAt(s, j)
    ensures TopComma(START, s).Some? && TopComma(START, s).value <= j
  {
    CommaHereIff(s, j);
    hide Scan, Reads;
    assert s == s[..j] + s[j..];
    CommaConcat(START, s[..j], s[j..]);
    TopCommaStep(Scan(All, START, s[..j]), s[j..]);
  }

  /** A piece has no top-level comma, and all but the last close their literals and have as
      many opening as closing brackets. */
  ghost predicate CutPieces(ps: seq<string>) {
    && (forall i, k: nat :: 0 <= i < |ps| ==> !TopCommaAt(ps[i], k))
    && (forall i :: 0 <= i < |ps| - 1 ==> Reads(ps[i], 0))
  }

  lemma {:induction false} CutPiecesIff(ps: seq<string>)
    ensures CutPieces(ps) <==> ArgumentPieces(ps)
  {
    hide TopCommaAt, NoTopComma, Reads, ClosedText;
    forall i | 0 <= i < |ps|
      ensures NoTopComma(ps[i]) <==> forall k: nat :: !TopCommaAt(ps[i], k)
    {
      TopCommaIff(ps[i], 0);
    }
    forall i | 0 <= i < |ps|
      ensures ClosedText(ps[i]) <==> Reads(ps[i], 0)
    {
      ClosedTextIff(ps[i]);
    }
  }

  lemma ClosedTextIff(s: string)
    ensures ClosedText(s) <==> Reads(s, 0)
  {
    hide Reads;
    ReadsIff(s, 0);
  }

  /** The pieces are the one way to cut the text at commas such that no piece has a comma of
      its own at the top level and all but the last are closed. */
  lemma {:induction false} PiecesIff(s: string, ps: seq<string>)
    ensures Pieces(s) == ps <==> ps != [] && CutPieces(ps) && Commas(ps) == s
  {
    ArgumentPiecesIff(s, ps);
    CutPiecesIff(ps);
  }

  /** Where the `n`-th piece ends. */
  function CutAt(ps: seq<string>, n: nat): nat
    requires n < |ps|
  {
    |ps[0]| + if n == 0 then 0 else 1 + CutAt(ps[1..], n - 1)
  }

  ghost predicate IsCut(ps: seq<string>, k: nat) {
    exists n: nat :: n < |ps| - 1 && CutAt(ps, n) == k
  }

  lemma {:induction false} IsCutCons(head: string, qs: seq<string>, k: nat)
    requires qs != []
    ensures IsCut([head] + qs, k) <==> k == |head| || (k > |head| && IsCut(qs, k - |head| - 1))
  {
    var ps := [head] + qs;
    assert ps[1..] == qs && CutAt(ps, 0) == |head|;
    if k > |head| && IsCut(qs, k - |head| - 1) {
      var n: nat :| n < |qs| - 1 && CutAt(qs, n) == k - |head| - 1;
      assert CutAt(ps, n + 1) == k;
    }
    if IsCut(ps, k) {
      var n: nat :| n < |ps| - 1 && CutAt(ps, n) == k;
      assert n > 0 ==> CutAt(qs, n - 1) == k - |head| - 1;
    }
  }

  /** The text is cut at a comma exactly when that comma stands outside literals and has as many
      opening as closing brackets in front of it, counted from the start of the whole text. */
  lemma {:induction false} CutsAreTopCommas(s: string, k: nat)
    ensures TopCommaAt(s, k) <==> IsCut(Pieces(s), k)
    decreases |s|
  {
    hide TopCommaAt, TopComma, CutAt;
    var first := TopComma(START, s);
    if first.None? {
      TopCommaIff(s, k);
    } else {
      var m := first.value;
      var rest := s[m + 1..];
      TopCommaIff(s, m);
      IsCutCons(s[..m], Pieces(rest), k);
      if m < k {
        CutsAreTopCommas(rest, k - m - 1);
        TopCommaBehind(s, m, k);
      }
    }
  }

  lemma {:induction false} ScanBehind(s: string, m: nat, k: nat)
    requires m < k <= |s| && s[m] == ',' && Scan(All, START, s[..m]) == START
    ensures Scan(All, START, s[..k]) == Scan(All, START, s[m + 1..][..k - m - 1])
  {
    var t := s[m + 1..][..k - m - 1];
    assert s[..k] == s[..m] + ("," + t);
    ScanConcat(All, START, s[..m], "," + t);
    assert ("," + t)[1..] == t;
  }

  /** Behind a top-level comma counting can start afresh. */
  lemma {:induction false} TopCommaBehind(s: string, m: nat, k: nat)
    requires TopCommaAt(s, m) && m < k
    ensures TopCommaAt(s, k) <==> TopCommaAt(s[m + 1..], k - m - 1)
  {
    hide Reads, Scan;
    ReadsIff(s[..m], 0);
    if k < |s| {
      ScanBehind(s, m, k);
      ReadsIff(s[..k], 0);
      ReadsIff(s[m + 1..][..k - m - 1], 0);
    }
  }

  /** The text can be cut into pieces which are these parts with white space around them, an
      empty last piece left out. */
  ghost predicate SplitsInto(s: string, parts: seq<string>) {
    exists ps: seq<string> ::
      ps != [] && CutPieces(ps) && Commas(ps) == s && parts == WithoutEmptyTail(StripAll(ps))
  }

  /** A text is split into these parts exactly when it can be cut in that way. */
  lemma {:induction false} SplitIff(s: string, parts: seq<string>)
    ensures Split(s) == parts <==> SplitsInto(s, parts)
  {
    hide CutPieces, Pieces, Finish, StripAll, WithoutEmptyTail;
    PiecesIff(s, Pieces(s));
    FinishIsStrip(Pieces(s));
    forall ps: seq<string> | ps != [] && CutPieces(ps) && Commas(ps) == s
      ensures ps == Pieces(s)
    {
      PiecesIff(s, ps);
    }
  }

  /** Trimming gives the one trimmed text that leaves only white space on either side. */
  lemma {:induction false} StripIff(s: string, m: string)
    ensures Strip(s) == m <==> Trimmed(m) && exists l, r :: AllSpace(l) && AllSpace(r) && s == l + m + r
  {
    var l, r := StripCuts(s);
    assert s == l + Strip(s) + r;
    if Trimmed(m) {
      forall l, r | AllSpace(l) && AllSpace(r) && s == l + m + r
        ensures Strip(s) == m
      {
        StripAround(l, m, r);
      }
    }
  }

  lemma {:induction false} TrimRightAround(m: string, r: string)
    requires AllSpace(r) && Trimmed(m)
    ensures TrimRight(m + r) == m
    decreases |r|
  {
    if r == "" {
      assert m + r == m;
    } else {
      assert (m + r)[..|m + r| - 1] == m + r[..|r| - 1];
      TrimRightAround(m, r[..|r| - 1]);
    }
  }

  lemma {:induction false} StripAround(l: string, m: string, r: string)
    requires AllSpace(l) && AllSpace(r) && Trimmed(m)
    ensures Strip(l + m + r) == m
  {
    assert l + m + r == l + (m + r);
    StripSpace(l, m + r);
    TrimRightAround(m, r);
    if m == "" {
      assert m + r == r && r + "" == r;
      StripSpace(r, "");
    }
  }

  /** The arguments, the first behind `lead` and every other behind the blank that joining
      puts there. */
  function Led(lead: string, args: seq<string>): (ps: seq<string>)
    requires args != []
    ensures |ps| == |args|
    decreases |args|
  {
    [lead + args[0]] + if |args| == 1 then [] else Led(" ", args[1..])
  }

  lemma ArgumentFirst(args: seq<string>)
    requires args != [] && ArgumentList(args)
    ensures Argument(args[0], |args| == 1)
  {
  }

  lemma ArgumentRest(args: seq<string>)
    requires args != [] && ArgumentList(args)
    ensures ArgumentList(args[1..])
  {
  }

  lemma ArgumentIs(args: seq<string>)
    requires args != [] && ArgumentList(args)
    ensures NoTopComma(args[0]) && (|args| > 1 ==> ClosedText(args[0]))
  {
  }

  lemma {:induction false} PiecesOfJoin(lead: string, args: seq<string>)
    requires args != [] && ArgumentList(args) && AllSpace(lead)
    ensures Pieces(lead + Join(args)) == Led(lead, args)
    decreases |args|
  {
    hide IsSpace, TopComma, Scan, Argument;
    BlankIsSpace();
    var a := args[0];
    ArgumentIs(args);
    ScanSpace(START, lead);
    CommaConcat(START, lead, a);
    ScanConcat(All, START, lead, a);
    if |args| > 1 {
      var rest := " " + Join(args[1..]);
      assert lead + Join(args) == (lead + a) + "," + rest;
      PiecesAt(lead + a, rest);
      ArgumentRest(args);
      PiecesOfJoin(" ", args[1..]);
    }
  }

  lemma StripTrimmed(s: string)
    requires Trimmed(s)
    ensures Strip(s) == s
  {
  }

  function WithoutEmptyTail(args: seq<string>): seq<string> {
    if args != [] && args[|args| - 1] == "" then args[..|args| - 1] else args
  }

  lemma {:induction false} StripLed(lead: string, s: string)
    requires AllSpace(lead) && Trimmed(s)
    ensures Strip(lead + s) == s
  {
    StripSpace(lead, s);
    StripTrimmed(s);
  }

  lemma BlankIsSpace()
    ensures AllSpace(" ")
  {
  }

  lemma {:induction false} FinishIsStrip(ps: seq<string>)
    requires ps != []
    ensures Finish(ps) == WithoutEmptyTail(StripAll(ps))
  {
    hide Strip;
    var front, last := ps[..|ps| - 1], ps[|ps| - 1];
    assert ps == front + [last];
    FinishLast(front, last);
    assert StripAll(ps) == StripAll(front) + [Strip(last)];
  }

  lemma {:induction false} StripAllLed(lead: string, args: seq<string>)
    requires args != [] && ArgumentList(args) && AllSpace(lead)
    ensures StripAll(Led(lead, args)) == args
    decreases |args|
  {
    ArgumentFirst(args);
    StripLed(lead, args[0]);
    StripAllCons(Led(lead, args));
    hide Strip, AllSpace, ArgumentList;
    if |args| > 1 {
      ArgumentRest(args);
      BlankIsSpace();
      StripAllLed(" ", args[1..]);
      assert Led(lead, args)[1..] == Led(" ", args[1..]);
    }
  }

  /** `split_top_level_args`. */
  method SplitTopLevelArgs(args: string) returns (parts: seq<string>)
    ensures parts == Split(args) && SplitsInto(args, parts)
  {
    hide Strip, PiecesGo, Pieces, SplitsInto, Finish, Ahead;
    SplitIff(args, Split(args));
    AheadStart(args);
    parts := [];
    ghost var cuts := [];
    var start, depth, inString, escape := 0, 0, false, false;
    for i := 0 to |args|
      invariant start <= i && Sound(Lex(depth, inString, escape))
      invariant cuts + Ahead(Lex(depth, inString, escape), args, start, i) == Pieces(args)
      invariant parts == StripAll(cuts)
    {
      var ch := args[i];
      AheadStep(Lex(depth, inString, escape), args, start, i);
      if inString {
        if escape {
          escape := false;
        } else if ch == '\\' {
          escape := true;
        } else if ch == '"' {
          inString := false;
        }
        continue;
      }
      if ch == '"' {
        inString := true;
      } else if ch in "([{" {
        depth := depth + 1;
      } else if ch in ")]}" {
        depth := depth - 1;
      } else if ch == ',' && depth == 0 {
        cuts := cuts + [args[start..i]];
        parts := parts + [Strip(args[start..i])];
        start := i + 1;
      }
    }
    AheadEnd(Lex(depth, inString, escape), args, start);
    FinishLast(cuts, args[start..]);
    FinishOne(args[start..]);
    var tail := Strip(args[start..]);
    if tail != "" {
      parts := parts + [tail];
    }
  }

  /** Splitting a joined list gives the list back, except that an empty last argument is
      lost. */
  lemma {:induction false} SplitJoin(args: seq<string>)
    requires ArgumentList(args)
    ensures Split(Join(args)) == WithoutEmptyTail(args)
  {
    if args != [] {
      PiecesOfJoin("", args);
      FinishIsStrip(Led("", args));
      StripAllLed("", args);
      assert "" + Join(args) == Join(args);
    }
  }

  /** Joining with ", " is undone by the splitter exactly for the argument lists whose last
      argument is not empty. */
  lemma {:induction false} SplitJoinIff(args: seq<string>)
    ensures Split(Join(args)) == args <==>
            ArgumentList(args) && (args == [] || args[|args| - 1] != "")
  {
    SplitGivesArguments(Join(args));
    if ArgumentList(args) {
      SplitJoin(args);
    }
  }

  /** Splitting again what was split and joined changes nothing, exactly when the text did
      not end in two separators. */
  lemma {:induction false} SplitAgainIff(s: string)
    ensures Split(Join(Split(s))) == Split(s) <==>
            Split(s) == [] || Split(s)[|Split(s)| - 1] != ""
  {
    SplitGivesArguments(s);
    SplitJoinIff(Split(s));
  }
}
