/** The character scanner shared by the call finder and the argument splitter: bracket depth
    outside string literals, and the escape state inside them. */
module Lexer {
  import opened Machine

  /** `find_matching_paren` counts round brackets, `split_top_level_args` counts all. */
  datatype Brackets = Round | All

  datatype Lex = Lex(depth: int, inString: bool, escape: bool)

  const START := Lex(0, false, false)

  predicate Opens(b: Brackets, c: char) {
    c == '(' || (b.All? && (c == '[' || c == '{'))
  }

  predicate Closes(b: Brackets, c: char) {
    c == ')' || (b.All? && (c == ']' || c == '}'))
  }

  function Advance(b: Brackets, st: Lex, c: char): Lex {
    if st.inString then
      if st.escape then st.(escape := false)
      else if c == '\\' then st.(escape := true)
      else if c == '"' then st.(inString := false)
      else st
    else if c == '"' then st.(inString := true)
    else if Opens(b, c) then st.(depth := st.depth + 1)
    else if Closes(b, c) then st.(depth := st.depth - 1)
    else st
  }

  function Scan(b: Brackets, st: Lex, s: string): Lex
    decreases |s|
  {
    if s == "" then st else Scan(b, Advance(b, st, s[0]), s[1..])
  }

  lemma {:induction false} ScanConcat(b: Brackets, st: Lex, s: string, t: string)
    ensures Scan(b, st, s + t) == Scan(b, Scan(b, st, s), t)
    decreases |s|
  {
    if s == "" {
      assert s + t == t;
    } else {
      assert (s + t)[1..] == s[1..] + t;
      ScanConcat(b, Advance(b, st, s[0]), s[1..], t);
    }
  }

  /** The shape of states a scan from `START` reaches: the escape flag is only ever set
      inside a literal. */
  predicate Sound(st: Lex) {
    st.escape ==> st.inString
  }

  lemma {:induction false} ScanSound(b: Brackets, st: Lex, s: string)
    requires Sound(st)
    ensures Sound(Scan(b, st, s))
    decreases |s|
  {
    if s != "" { ScanSound(b, Advance(b, st, s[0]), s[1..]); }
  }

  /** Quotes do not depend on brackets. */
  lemma {:induction false} ScanQuotes(b: Brackets, b': Brackets, st: Lex, st': Lex, s: string)
    requires st.inString == st'.inString && st.escape == st'.escape
    ensures Scan(b, st, s).inString == Scan(b', st', s).inString && Scan(b, st, s).escape == Scan(b', st', s).escape
    decreases |s|
  {
    if s != "" { ScanQuotes(b, b', Advance(b, st, s[0]), Advance(b', st', s[0]), s[1..]); }
  }

  // ------------------------------------------------------------ the closing bracket

  predicate ClosesHere(base: int, st: Lex, c: char) {
    !st.inString && c == ')' && st.depth == base
  }

  /** Where the scan first meets a closing bracket at depth `base`. */
  function MatchClose(base: int, st: Lex, s: string): (r: Option<nat>)
    ensures r.Some? ==> r.value < |s|
    decreases |s|
  {
    if s == "" then None
    else if ClosesHere(base, st, s[0]) then Some(0)
    else Later(1, MatchClose(base, Advance(Round, st, s[0]), s[1..]))
  }

  function Later(n: nat, r: Option<nat>): Option<nat> {
    match r
    case None => None
    case Some(k) => Some(n + k)
  }

  predicate ClosesAt(base: int, st: Lex, s: string, k: nat) {
    k < |s| && ClosesHere(base, Scan(Round, st, s[..k]), s[k])
  }

  /** The least closing position, and no answer exactly when there is none. */
  lemma {:induction false} MatchCloseIff(base: int, st: Lex, s: string)
    ensures MatchClose(base, st, s).Some? ==> ClosesAt(base, st, s, MatchClose(base, st, s).value)
    ensures forall j: nat :: ClosesAt(base, st, s, j) ==>
              MatchClose(base, st, s).Some? && MatchClose(base, st, s).value <= j
    decreases |s|
  {
    if s != "" {
      var st' := Advance(Round, st, s[0]);
      MatchCloseIff(base, st', s[1..]);
      forall j: nat | 0 < j < |s|
        ensures ClosesAt(base, st, s, j) <==> ClosesAt(base, st', s[1..], j - 1)
      {
        assert s[..j][1..] == s[1..][..j - 1];
      }
      assert s[..0] == "";
    }
  }

  function From(text: string, i: nat): string {
    if i <= |text| then text[i..] else ""
  }

  function CloseFrom(st: Lex, text: string, i: nat): Option<nat> {
    Later(i, MatchClose(1, st, From(text, i)))
  }

  lemma CloseFromStep(st: Lex, text: string, i: nat)
    ensures i >= |text| ==> CloseFrom(st, text, i) == None
    ensures i < |text| ==>
              CloseFrom(st, text, i) ==
              if ClosesHere(1, st, text[i]) then Some(i) else CloseFrom(Advance(Round, st, text[i]), text, i + 1)
  {
  }

  lemma CloseFromIff(text: string, i: nat)
    ensures var r := CloseFrom(START, text, i);
            && (r.Some? ==> i <= r.value < |text| && ClosesAt(1, START, From(text, i), r.value - i))
            && forall j: nat :: ClosesAt(1, START, From(text, i), j) ==> r.Some? && r.value <= i + j
  {
    hide MatchClose, ClosesAt;
    MatchCloseIff(1, START, From(text, i));
  }

  /** `find_matching_paren`: the least position where the depth, counted from `openIdx`,
      comes back to zero on a closing bracket outside a literal.  `None` stands for the
      `ValueError`, raised exactly when there is no such position. */
  method FindMatchingParen(text: string, openIdx: nat) returns (r: Option<nat>)
    ensures r == CloseFrom(START, text, openIdx)
    ensures r.Some? ==> openIdx <= r.value < |text| && ClosesAt(1, START, From(text, openIdx), r.value - openIdx)
    ensures forall j: nat :: ClosesAt(1, START, From(text, openIdx), j) ==> r.Some? && r.value <= openIdx + j
  {
    hide CloseFrom, ClosesAt;
    CloseFromIff(text, openIdx);
    var depth, i, inString, escape := 0, openIdx, false, false;
    while i < |text|
      invariant openIdx <= i
      invariant i <= |text| || i == openIdx
      invariant CloseFrom(START, text, openIdx) == CloseFrom(Lex(depth, inString, escape), text, i)
    {
      var ch := text[i];
      CloseFromStep(Lex(depth, inString, escape), text, i);
      if inString {
        if escape {
          escape := false;
        } else if ch == '\\' {
          escape := true;
        } else if ch == '"' {
          inString := false;
        }
        i := i + 1;
        continue;
      }
      if ch == '"' {
        inString := true;
      } else if ch == '(' {
        depth := depth + 1;
      } else if ch == ')' {
        depth := depth - 1;
        if depth == 0 {
          return Some(i);
        }
      }
      i := i + 1;
    }
    CloseFromStep(Lex(depth, inString, escape), text, i);
    r := None;
  }

  // ------------------------------------------------------------ nesting as a grammar

  datatype StrChar = Raw(c: char) | Escaped(c: char)

  datatype Piece =
    | Plain(c: char)
    | Quoted(body: seq<StrChar>)
    | Group(inner: seq<Piece>)

  predicate LegalBody(body: seq<StrChar>) {
    forall i :: 0 <= i < |body| && body[i].Raw? ==> body[i].c != '"' && body[i].c != '\\'
  }

  predicate Legal(p: Piece) {
    match p
    case Plain(c) => c != '"' && c != '(' && c != ')'
    case Quoted(body) => LegalBody(body)
    case Group(inner) => forall i :: 0 <= i < |inner| ==> Legal(inner[i])
  }

  predicate LegalAll(ps: seq<Piece>) {
    forall i :: 0 <= i < |ps| ==> Legal(ps[i])
  }

  function PrintBody(body: seq<StrChar>): string {
    if body == [] then ""
    else (match body[0] case Raw(c) => [c] case Escaped(c) => ['\\', c]) + PrintBody(body[1..])
  }

  function Print(p: Piece): string
    decreases p, 0
  {
    match p
    case Plain(c) => [c]
    case Quoted(body) => "\"" + PrintBody(body) + "\""
    case Group(inner) => "(" + PrintAll(inner) + ")"
  }

  function PrintAll(ps: seq<Piece>): string
    decreases ps, 1
  {
    if ps == [] then "" else Print(ps[0]) + PrintAll(ps[1..])
  }

  // -- every nested text is passed over

  lemma {:induction false} PassOver(base: int, st: Lex, s: string, rest: string)
    requires MatchClose(base, st, s).None?
    ensures MatchClose(base, st, s + rest) == Later(|s|, MatchClose(base, Scan(Round, st, s), rest))
    decreases |s|
  {
    if s == "" {
      assert s + rest == rest;
    } else {
      assert (s + rest)[1..] == s[1..] + rest;
      PassOver(base, Advance(Round, st, s[0]), s[1..], rest);
    }
  }

  /** Reading `s` at depth `d` outside a literal never closes that depth and comes back to
      it. */
  predicate Balanced(d: int, s: string) {
    MatchClose(d, Lex(d, false, false), s).None? && Scan(Round, Lex(d, false, false), s) == Lex(d, false, false)
  }

  lemma {:induction false} BalancedConcat(d: int, s: string, t: string)
    requires Balanced(d, s)
    ensures Balanced(d, s + t) <==> Balanced(d, t)
  {
    PassOver(d, Lex(d, false, false), s, t);
    ScanConcat(Round, Lex(d, false, false), s, t);
  }

  lemma {:induction false} BodyStaysInside(d: int, base: int, body: seq<StrChar>)
    requires LegalBody(body)
    ensures MatchClose(base, Lex(d, true, false), PrintBody(body)).None?
    ensures Scan(Round, Lex(d, true, false), PrintBody(body)) == Lex(d, true, false)
    decreases |body|
  {
    if body != [] {
      BodyStaysInside(d, base, body[1..]);
      var st := Lex(d, true, false);
      var head := match body[0] case Raw(c) => [c] case Escaped(c) => ['\\', c];
      if body[0].Escaped? {
        var st1, tail := Lex(d, true, true), head[1..];
        assert tail == [body[0].c] && tail[1..] == "";
        assert Scan(Round, st, head) == Scan(Round, st1, tail) == Scan(Round, st, tail[1..]);
      }
      assert MatchClose(base, st, head).None? && Scan(Round, st, head) == st;
      PassOver(base, st, head, PrintBody(body[1..]));
      ScanConcat(Round, st, head, PrintBody(body[1..]));
    }
  }

  lemma {:induction false} PieceBalanced(d: int, p: Piece)
    requires Legal(p)
    ensures Balanced(d, Print(p))
    decreases p, 0
  {
    match p
    case Plain(c) =>
    case Quoted(body) =>
      BodyStaysInside(d, d, body);
      Bracketed(d, Lex(d, true, false), '"', PrintBody(body), '"');
    case Group(inner) =>
      PiecesBalanced(d + 1, inner);
      AboveBase(d, Lex(d + 1, false, false), PrintAll(inner));
      Bracketed(d, Lex(d + 1, false, false), '(', PrintAll(inner), ')');
  }

  lemma {:induction false} Bracketed(d: int, inside: Lex, open: char, s: string, close: char)
    requires Advance(Round, Lex(d, false, false), open) == inside
    requires !ClosesHere(d, Lex(d, false, false), open) && !ClosesHere(d, inside, close)
    requires MatchClose(d, inside, s).None? && Scan(Round, inside, s) == inside
    requires Advance(Round, inside, close) == Lex(d, false, false)
    ensures Balanced(d, [open] + s + [close])
  {
    var t := s + [close];
    assert [open] + s + [close] == [open] + t;
    assert ([open] + t)[1..] == t;
    PassOver(d, inside, s, [close]);
    ScanConcat(Round, inside, s, [close]);
    assert [close][1..] == "";
  }

  lemma {:induction false} PiecesBalanced(d: int, ps: seq<Piece>)
    requires LegalAll(ps)
    ensures Balanced(d, PrintAll(ps))
    decreases ps, 1
  {
    if ps != [] {
      PieceBalanced(d, ps[0]);
      PiecesBalanced(d, ps[1..]);
      BalancedConcat(d, Print(ps[0]), PrintAll(ps[1..]));
    }
  }

  /** A scan that starts above a depth and never closes the one above it does not close
      that depth either. */
  lemma {:induction false} AboveBase(base: int, st: Lex, s: string)
    requires base < st.depth && MatchClose(base + 1, st, s).None?
    ensures MatchClose(base, st, s).None? && base < Scan(Round, st, s).depth
    decreases |s|
  {
    if s != "" { AboveBase(base, Advance(Round, st, s[0]), s[1..]); }
  }

  // -- and every text passed over is nested

  lemma {:induction false} ParseBody(st: Lex, s: string) returns (body: seq<StrChar>, n: nat)
    requires st.inString && !st.escape
    requires !Scan(Round, st, s).inString
    ensures LegalBody(body) && n < |s| && s[..n + 1] == PrintBody(body) + "\""
    decreases |s|
  {
    if s[0] == '"' {
      body, n := [], 0;
    } else if s[0] == '\\' {
      assert |s| > 1;
      assert s[1..][1..] == s[2..];
      var rest, m := ParseBody(st, s[2..]);
      body, n := [Escaped(s[1])] + rest, m + 2;
      assert s[..n + 1] == s[..2] + s[2..][..m + 1];
    } else {
      var rest, m := ParseBody(st, s[1..]);
      body, n := [Raw(s[0])] + rest, m + 1;
      assert s[..n + 1] == s[..1] + s[1..][..m + 1];
    }
  }

  lemma {:induction false} ParsePieces(d: int, s: string) returns (ps: seq<Piece>)
    requires Balanced(d, s)
    ensures LegalAll(ps) && PrintAll(ps) == s
    decreases |s|, 1
  {
    ps := [];
    if s != "" {
      var head, n := ParsePiece(d, s);
      PieceBalanced(d, head);
      assert s == s[..n] + s[n..];
      BalancedConcat(d, s[..n], s[n..]);
      hide MatchClose, Scan;
      var rest := ParsePieces(d, s[n..]);
      ps := [head] + rest;
    }
  }

  lemma {:induction false} ParsePiece(d: int, s: string) returns (p: Piece, n: nat)
    requires s != "" && Balanced(d, s)
    ensures Legal(p) && 0 < n <= |s| && Print(p) == s[..n]
    decreases |s|, 0
  {
    var st := Lex(d, false, false);
    if s[0] == '"' {
      var body, m := ParseBody(Advance(Round, st, s[0]), s[1..]);
      p, n := Quoted(body), m + 2;
      assert s[..n] == s[..1] + s[1..][..m + 1];
    } else if s[0] == '(' {
      var k := GroupEnd(d, s[1..]);
      var inner := ParsePieces(d + 1, s[1..][..k]);
      p, n := Group(inner), k + 2;
      assert s[..n] == "(" + s[1..][..k] + ")";
    } else {
      p, n := Plain(s[0]), 1;
    }
  }

  lemma {:induction false} GroupEnd(d: int, s: string) returns (k: nat)
    requires Scan(Round, Lex(d + 1, false, false), s) == Lex(d, false, false)
    ensures k < |s| && s[k] == ')' && Balanced(d + 1, s[..k])
  {
    var st := Lex(d + 1, false, false);
    if MatchClose(d + 1, st, s).None? {
      AboveBase(d, st, s);
      assert false;
    }
    k := MatchClose(d + 1, st, s).value;
    MatchCloseIff(d + 1, st, s);
    ScanSound(Round, st, s[..k]);
    CutShort(d + 1, st, s, k);
  }

  lemma {:induction false} CutShort(base: int, st: Lex, s: string, k: nat)
    requires k <= |s| && (MatchClose(base, st, s).Some? ==> k <= MatchClose(base, st, s).value)
    ensures MatchClose(base, st, s[..k]).None?
  {
    MatchCloseIff(base, st, s);
    MatchCloseIff(base, st, s[..k]);
    forall j: nat | ClosesAt(base, st, s[..k], j)
      ensures ClosesAt(base, st, s, j)
    {
      assert s[..k][..j] == s[..j];
    }
  }

  lemma {:induction false} ClosedIsNested(s: string) returns (ps: seq<Piece>)
    requires s != "" && s[0] == '(' && MatchClose(1, START, s).Some?
    ensures var k := MatchClose(1, START, s).value;
            LegalAll(ps) && s[..k + 1] == "(" + PrintAll(ps) + ")"
  {
    var k := MatchClose(1, START, s).value;
    var st, t := Lex(1, false, false), s[1..];
    MatchCloseIff(1, st, t);
    CutShort(1, st, t, k - 1);
    ScanSound(Round, st, t[..k - 1]);
    ps := ParsePieces(1, t[..k - 1]);
    assert s[..k + 1] == "(" + t[..k - 1] + ")";
  }

  lemma {:induction false} NestedCloses(ps: seq<Piece>, rest: string)
    requires LegalAll(ps)
    ensures MatchClose(1, START, "(" + PrintAll(ps) + ")" + rest) == Some(|PrintAll(ps)| + 1)
  {
    var s, t := "(" + PrintAll(ps) + ")" + rest, ")" + rest;
    PiecesBalanced(1, ps);
    assert s[1..] == PrintAll(ps) + t;
    PassOver(1, Lex(1, false, false), PrintAll(ps), t);
  }

  /** The bracket found for an opening one is exactly the end of a properly nested group:
      brackets match outside string literals, and nothing inside a literal counts. */
  lemma {:induction false} CloseIffNested(s: string, k: nat)
    requires s != "" && s[0] == '('
    ensures MatchClose(1, START, s) == Some(k) <==>
            exists ps: seq<Piece> :: LegalAll(ps) && k < |s| && s[..k + 1] == "(" + PrintAll(ps) + ")"
  {
    hide MatchClose, PrintAll, Legal;
    if MatchClose(1, START, s) == Some(k) {
      var ps := ClosedIsNested(s);
    }
    forall ps: seq<Piece> | LegalAll(ps) && k < |s| && s[..k + 1] == "(" + PrintAll(ps) + ")"
      ensures MatchClose(1, START, s) == Some(k)
    {
      NestedCloses(ps, s[k + 1..]);
      assert s == s[..k + 1] + s[k + 1..];
    }
  }
}
