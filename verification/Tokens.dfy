/** Text as literals and single characters, with the brackets of all three kinds counted
    outside the literals. */
module Tokens {
  import opened Lexer

  datatype Token = Sign(c: char) | Literal(body: seq<StrChar>)

  predicate LegalToken(t: Token) {
    match t
    case Sign(c) => c != '"'
    case Literal(body) => LegalBody(body)
  }

  predicate LegalTokens(ts: seq<Token>) {
    forall i :: 0 <= i < |ts| ==> LegalToken(ts[i])
  }

  function PrintToken(t: Token): string {
    match t
    case Sign(c) => [c]
    case Literal(body) => "\"" + PrintBody(body) + "\""
  }

  function PrintTokens(ts: seq<Token>): string {
    if ts == [] then "" else PrintToken(ts[0]) + PrintTokens(ts[1..])
  }

  function Weight(t: Token): int {
    if t.Literal? then 0 else if t.c in "([{" then 1 else if t.c in ")]}" then -1 else 0
  }

  /** Opening brackets less closing ones. */
  function Count(ts: seq<Token>): int {
    if ts == [] then 0 else Weight(ts[0]) + Count(ts[1..])
  }

  /** The text is made of whole literals and other characters, and has `d` more opening than
      closing brackets outside the literals. */
  ghost predicate Reads(s: string, d: int) {
    exists ts: seq<Token> :: LegalTokens(ts) && PrintTokens(ts) == s && Count(ts) == d
  }

  /** The comma at `k` stands outside literals and has as many opening as closing brackets
      in front of it. */
  ghost predicate TopCommaAt(s: string, k: nat) {
    k < |s| && s[k] == ',' && Reads(s[..k], 0)
  }

  // ------------------------------------------------------------ what the scanner makes of it

  lemma {:induction false} BodyScan(b: Brackets, d: int, body: seq<StrChar>)
    requires LegalBody(body)
    ensures Scan(b, Lex(d, true, false), PrintBody(body)) == Lex(d, true, false)
    decreases |body|
  {
    if body != [] {
      BodyScan(b, d, body[1..]);
      var st := Lex(d, true, false);
      var head := match body[0] case Raw(c) => [c] case Escaped(c) => ['\\', c];
      if body[0].Escaped? {
        var st1, tail := Lex(d, true, true), head[1..];
        assert tail == [body[0].c] && tail[1..] == "";
        assert Scan(b, st, head) == Scan(b, st1, tail) == Scan(b, st, tail[1..]);
      }
      ScanConcat(b, st, head, PrintBody(body[1..]));
    }
  }

  lemma {:induction false} TokenScan(d: int, t: Token)
    requires LegalToken(t)
    ensures Scan(All, Lex(d, false, false), PrintToken(t)) == Lex(d + Weight(t), false, false)
  {
    var st := Lex(d, false, false);
    match t
    case Sign(c) =>
      assert [c][1..] == "";
    case Literal(body) =>
      var inside, rest := Lex(d, true, false), PrintBody(body) + "\"";
      assert PrintToken(t) == "\"" + rest && PrintToken(t)[1..] == rest;
      BodyScan(All, d, body);
      ScanConcat(All, inside, PrintBody(body), "\"");
      assert "\""[1..] == "";
      assert Scan(All, st, PrintToken(t)) == Scan(All, inside, rest);
  }

  lemma {:induction false} TokensScan(d: int, ts: seq<Token>)
    requires LegalTokens(ts)
    ensures Scan(All, Lex(d, false, false), PrintTokens(ts)) == Lex(d + Count(ts), false, false)
    decreases |ts|
  {
    if ts != [] {
      TokenScan(d, ts[0]);
      TokensScan(d + Weight(ts[0]), ts[1..]);
      ScanConcat(All, Lex(d, false, false), PrintToken(ts[0]), PrintTokens(ts[1..]));
    }
  }

  lemma QuoteOpens(d: int, s: string)
    requires s != "" && s[0] == '"'
    ensures Scan(All, Lex(d, false, false), s) == Scan(All, Lex(d, true, false), s[1..])
  {
  }

  lemma {:induction false} ParseLiteral(d: int, s: string) returns (body: seq<StrChar>, n: nat)
    requires s != "" && s[0] == '"' && !Scan(All, Lex(d, false, false), s).inString
    ensures LegalBody(body) && 0 < n <= |s| && s[..n] == "\"" + PrintBody(body) + "\""
  {
    hide Scan, PrintBody, LegalBody;
    var inside, m := Lex(d, true, false), 0;
    QuoteOpens(d, s);
    ScanQuotes(All, Round, inside, inside, s[1..]);
    body, m := ParseBody(inside, s[1..]);
    n := m + 2;
    assert s[..n] == s[..1] + s[1..][..m + 1];
  }

  lemma {:induction false} ParseToken(d: int, s: string) returns (t: Token, n: nat)
    requires s != "" && !Scan(All, Lex(d, false, false), s).inString
    ensures LegalToken(t) && 0 < n <= |s| && PrintToken(t) == s[..n]
  {
    hide Scan, PrintBody, LegalBody;
    if s[0] == '"' {
      var body;
      body, n := ParseLiteral(d, s);
      t := Literal(body);
    } else {
      t, n := Sign(s[0]), 1;
    }
  }

  lemma {:induction false} ParseTokens(d: int, s: string) returns (ts: seq<Token>)
    requires !Scan(All, Lex(d, false, false), s).inString
    ensures LegalTokens(ts) && PrintTokens(ts) == s
    decreases |s|
  {
    ts := [];
    if s != "" {
      var head, n := ParseToken(d, s);
      hide PrintToken;
      TokenScan(d, head);
      assert s == s[..n] + s[n..];
      ScanConcat(All, Lex(d, false, false), s[..n], s[n..]);
      var rest := ParseTokens(d + Weight(head), s[n..]);
      ts := [head] + rest;
      assert ts[0] == head && ts[1..] == rest;
    }
  }

  /** The scanner of the splitter is outside a literal at depth `d` exactly behind such a
      text. */
  lemma {:induction false} ReadsIff(s: string, d: int)
    ensures Reads(s, d) <==> Scan(All, START, s) == Lex(d, false, false)
  {
    hide Scan, PrintTokens, Count, LegalTokens;
    forall ts: seq<Token> | LegalTokens(ts) && PrintTokens(ts) == s && Count(ts) == d
      ensures Scan(All, START, s) == Lex(d, false, false)
    {
      TokensScan(0, ts);
    }
    if Scan(All, START, s) == Lex(d, false, false) {
      var ts := ParseTokens(0, s);
      TokensScan(0, ts);
    }
  }
}
