/** Written tokens: every spelling of a token list, with blanks and comments between them, lexes back to the list. */
module BsdlSpelling {
  import opened BsdlLexer

  /** A token, its spelling, and the blanks and comments behind it. */
  datatype Piece = Piece(token: Token, text: string, gap: string)

  predicate InWord(c: char) { 'A' <= c <= 'Z' || 'a' <= c <= 'z' || '0' <= c <= '9' || c == '_' }

  /** A word in any case, and the word in upper case. */
  predicate SameWord(text: string, word: string) {
    |text| == |word| && forall i :: 0 <= i < |text| ==>
      InWord(text[i]) && word[i] as int == text[i] as int - if 'a' <= text[i] <= 'z' then 32 else 0
  }

  /** A literal's text with every quote doubled. */
  function Quoted(s: string): string {
    if s == "" then "" else (if s[0] == '"' then "\"\"" else [s[0]]) + Quoted(s[1..])
  }

  predicate Spells(text: string, t: Token) {
    match t.kind
    case Identifier => text != "" && !('0' <= text[0] <= '9') && SameWord(text, t.value)
    case Integer => text == t.value != "" && forall i :: 0 <= i < |text| ==> '0' <= text[i] <= '9'
    case StringLiteral => text == "\"" + Quoted(t.value) + "\""
    case LeftParen => text == t.value == "("
    case RightParen => text == t.value == ")"
    case Comma => text == t.value == ","
    case Semicolon => text == t.value == ";"
    case Colon => text == t.value == ":"
    case Ampersand => text == t.value == "&"
    case Dot => text == t.value == "."
    case Assign => text == t.value == ":="
    case _ => false
  }

  /** Two dashes and the line behind them. */
  ghost predicate CommentOf(g: string, n: int) {
    2 <= n < |g| && g[0] == '-' && g[1] == '-' && g[n] == '\n' && forall i :: 2 <= i < n ==> g[i] != '\n'
  }

  /** Blanks, and comments up to the end of their lines. */
  ghost predicate IsGap(g: string)
    decreases |g|
  {
    g == "" || (g[0] in " \t\r\n" && IsGap(g[1..])) || exists n :: CommentOf(g, n) && IsGap(g[n..])
  }

  ghost predicate Written(p: Piece) { Spells(p.text, p.token) && IsGap(p.gap) && p.gap != "" }

  function Source(pieces: seq<Piece>): string {
    if pieces == [] then "" else pieces[0].text + pieces[0].gap + Source(pieces[1..])
  }

  function TokensOf(pieces: seq<Piece>): (r: seq<Token>)
    ensures |r| == |pieces|
  {
    seq(|pieces|, i requires 0 <= i < |pieces| => pieces[i].token)
  }

  // -------------------------------------------------------- blanks and comments

  lemma {:induction false} LineEndIs(s: string, pos: nat, e: nat)
    requires pos <= e < |s| && s[e] == '\n' && forall i :: pos <= i < e ==> s[i] != '\n'
    ensures LineEnd(s, pos) == e
    decreases e - pos
  {
    if pos < e { LineEndIs(s, pos + 1, e); }
  }

  lemma BlankSkips(s: string, pos: nat, g: string)
    requires g != "" && pos + |g| <= |s| && s[pos..pos + |g|] == g && g[0] in " \t\r\n"
    ensures Skip(s, pos) == Skip(s, pos + 1) && s[pos + 1..pos + |g|] == g[1..]
  {
    assert s[pos] == s[pos..pos + |g|][0];
  }

  lemma CommentSkips(s: string, pos: nat, g: string, n: nat)
    requires pos + |g| <= |s| && s[pos..pos + |g|] == g && CommentOf(g, n)
    ensures Skip(s, pos) == Skip(s, pos + n) && s[pos + n..pos + |g|] == g[n..]
  {
    assert forall i :: 0 <= i < |g| ==> g[i] == s[pos + i];
    assert forall i :: pos + 2 <= i < pos + n ==> s[i] == g[i - pos];
    LineEndIs(s, pos + 2, pos + n);
    assert s[pos] == '-' && s[pos + 1] == '-';
  }

  lemma {:induction false} SkipsGap(s: string, pos: nat, g: string)
    requires pos + |g| <= |s| && s[pos..pos + |g|] == g && IsGap(g)
    ensures Skip(s, pos) == Skip(s, pos + |g|)
    decreases |g|
  {
    hide Skip, CommentOf, IsGap;
    if g != "" {
      var n := GapPart(g);
      if g[0] in " \t\r\n" {
        BlankSkips(s, pos, g);
      } else {
        CommentSkips(s, pos, g, n);
      }
      SkipsGap(s, pos + n, g[n..]);
    }
  }

  /** A gap starts with a blank or a comment, and the rest is one. */
  lemma GapPart(g: string) returns (n: nat)
    requires IsGap(g) && g != ""
    ensures 1 <= n <= |g| && IsGap(g[n..]) && if g[0] in " \t\r\n" then n == 1 else CommentOf(g, n)
  {
    if g[0] in " \t\r\n" {
      n := 1;
    } else {
      n :| CommentOf(g, n) && IsGap(g[n..]);
    }
  }

  // ---------------------------------------------------------------- one token

  /** A part of a stretch of text. */
  lemma PartOf(s: string, pos: nat, text: string, i: nat, j: nat)
    requires pos + |text| <= |s| && s[pos..pos + |text|] == text && i <= j <= |text|
    ensures s[pos + i..pos + j] == text[i..j] && (i < j ==> s[pos + i] == text[i])
  {
    assert forall k :: 0 <= k < |text| ==> text[k] == s[pos + k];
  }

  lemma {:induction false} WordEndIs(s: string, pos: nat, e: nat)
    requires pos <= e < |s| && !InWord(s[e]) && forall i :: pos <= i < e ==> InWord(s[i])
    ensures WordEnd(s, pos) == e
    decreases e - pos
  {
    if pos < e { WordEndIs(s, pos + 1, e); }
  }

  lemma {:induction false} NumberEndIs(s: string, pos: nat, e: nat)
    requires pos <= e < |s| && !InWord(s[e]) && forall i :: pos <= i < e ==> '0' <= s[i] <= '9'
    ensures NumberEnd(s, pos) == e
    decreases e - pos
  {
    if pos < e { NumberEndIs(s, pos + 1, e); }
  }

  lemma {:induction false} LiteralReads(s: string, pos: nat, value: string)
    requires pos + |Quoted(value)| + 1 < |s| && s[pos + |Quoted(value)|] == '"' != s[pos + |Quoted(value)| + 1]
    requires s[pos..pos + |Quoted(value)|] == Quoted(value)
    ensures LiteralFrom(s, pos) == Literal(value, pos + |Quoted(value)| + 1)
    decreases |value|
  {
    if value != "" {
      var w, q := if value[0] == '"' then 2 else 1, Quoted(value);
      PartOf(s, pos, q, w, |q|);
      PartOf(s, pos, q, 0, 1);
      if w == 2 { PartOf(s, pos, q, 1, 2); }
      assert q[w..] == Quoted(value[1..]);
      LiteralReads(s, pos + w, value[1..]);
      assert [value[0]] + value[1..] == value;
    }
  }

  lemma WordReads(s: string, pos: nat, text: string, word: string)
    requires text != "" && !('0' <= text[0] <= '9') && SameWord(text, word)
    requires pos + |text| < |s| && s[pos..pos + |text|] == text && !InWord(s[pos + |text|])
    ensures TokenAt(s, pos) == (Token(Identifier, word), pos + |text|)
  {
    assert forall i :: 0 <= i < |text| ==> text[i] == s[pos + i];
    WordEndIs(s, pos + 1, pos + |text|);
    assert Upper(text) == word;
  }

  lemma NumberReads(s: string, pos: nat, text: string)
    requires text != "" && forall i :: 0 <= i < |text| ==> '0' <= text[i] <= '9'
    requires pos + |text| < |s| && s[pos..pos + |text|] == text && !InWord(s[pos + |text|])
    ensures TokenAt(s, pos) == (Token(Integer, text), pos + |text|)
  {
    assert forall i :: 0 <= i < |text| ==> text[i] == s[pos + i];
    NumberEndIs(s, pos + 1, pos + |text|);
  }

  lemma StringReads(s: string, pos: nat, value: string)
    requires pos + |Quoted(value)| + 2 < |s| && s[pos..pos + |Quoted(value)| + 2] == "\"" + Quoted(value) + "\""
    requires s[pos + |Quoted(value)| + 2] != '"'
    ensures TokenAt(s, pos) == (Token(StringLiteral, value), pos + |Quoted(value)| + 2)
  {
    hide Quoted, LiteralFrom;
    var text, n := "\"" + Quoted(value) + "\"", |Quoted(value)|;
    PartOf(s, pos, text, 0, 1);
    PartOf(s, pos, text, 1, n + 1);
    PartOf(s, pos, text, n + 1, n + 2);
    LiteralReads(s, pos + 1, value);
  }

  /** A spelling followed by a gap is read as its token. */
  lemma PieceReads(s: string, pos: nat, p: Piece)
    requires Written(p) && pos + |p.text| < |s| && s[pos..pos + |p.text|] == p.text && s[pos + |p.text|] == p.gap[0]
    ensures p.text != "" && Skip(s, pos) == pos && TokenAt(s, pos) == (p.token, pos + |p.text|)
  {
    hide Quoted, TokenAt, SameWord;
    GapStarts(p.gap);
    TextStarts(p);
    assert p.text[0] == s[pos..pos + |p.text|][0] == s[pos];
    NothingSkipped(s, pos);
    match p.token.kind
    case Identifier => WordReads(s, pos, p.text, p.token.value);
    case Integer => NumberReads(s, pos, p.text);
    case StringLiteral => StringReads(s, pos, p.token.value);
    case _ => MarkReads(s, pos, p.token, p.text);
  }

  lemma GapStarts(g: string)
    requires IsGap(g) && g != ""
    ensures g[0] in " \t\r\n-"
  {
  }

  lemma TextStarts(p: Piece)
    requires Spells(p.text, p.token)
    ensures p.text != "" && p.text[0] !in " \t\r\n-"
  {
    if p.token.kind == Identifier { assert InWord(p.text[0]); }
    if p.token.kind == StringLiteral { assert p.text[0] == '"'; }
  }

  lemma NothingSkipped(s: string, pos: nat)
    requires pos < |s| && s[pos] !in " \t\r\n-"
    ensures Skip(s, pos) == pos
  {
  }

  lemma MarkReads(s: string, pos: nat, t: Token, text: string)
    requires Spells(text, t) && t.kind !in {Identifier, Integer, StringLiteral}
    requires pos + |text| < |s| && s[pos..pos + |text|] == text && s[pos + |text|] in " \t\r\n-"
    ensures TokenAt(s, pos) == (t, pos + |text|)
  {
    assert forall i :: 0 <= i < |text| ==> text[i] == s[pos + i];
  }

  lemma TokenThen(s: string, at: nat, t: Token, mid: nat, next: nat)
    requires at < mid <= next <= |s| && Skip(s, at) == at && TokenAt(s, at) == (t, mid) && Skip(s, mid) == Skip(s, next)
    ensures Tokens(s, at) == [t] + Tokens(s, next)
  {
    hide Skip, TokenAt;
  }

  /** Whatever the case of its words, the blanks and the comments, a written text has the tokens written. */
  lemma {:induction false} WrittenTokensRead(before: string, pieces: seq<Piece>)
    requires forall i :: 0 <= i < |pieces| ==> Written(pieces[i])
    ensures Tokens(before + Source(pieces), |before|) == TokensOf(pieces)
    decreases |pieces|
  {
    hide Written, TokenAt, Skip, IsGap, Tokens;
    if pieces == [] {
      EndsThere(before);
      assert before + "" == before;
    } else {
      var p, rest := pieces[0], pieces[1..];
      PieceThen(before + Source(pieces), before, p, Source(rest), |before|, |before| + |p.text| + |p.gap|);
      assert before + Source(pieces) == before + (p.text + p.gap + Source(rest));
      assert before + p.text + p.gap + Source(rest) == before + (p.text + p.gap + Source(rest));
      WrittenTokensRead(before + p.text + p.gap, rest);
      assert TokensOf(pieces) == [p.token] + TokensOf(rest);
    }
  }

  lemma PieceThen(s: string, before: string, p: Piece, rest: string, at: nat, next: nat)
    requires Written(p) && s == before + (p.text + p.gap + rest)
    requires at == |before| && next == |before| + |p.text| + |p.gap|
    ensures at <= next <= |s| && Tokens(s, at) == [p.token] + Tokens(s, next)
  {
    hide Written, IsGap, Tokens;
    GapIsThere(p);
    PartsOf(s, before, p.text, p.gap, rest);
    PieceAt(s, at, p, |before| + |p.text|, next);
  }

  lemma PieceAt(s: string, at: nat, p: Piece, mid: nat, next: nat)
    requires Written(p) && p.gap != "" && IsGap(p.gap)
    requires mid == at + |p.text| && next == mid + |p.gap| <= |s|
    requires s[at..mid] == p.text && s[mid..next] == p.gap && s[mid] == p.gap[0]
    ensures Tokens(s, at) == [p.token] + Tokens(s, next)
  {
    hide Written, TokenAt, Skip, IsGap, Tokens;
    PieceReads(s, at, p);
    SkipsGap(s, mid, p.gap);
    TokenThen(s, at, p.token, mid, next);
  }

  lemma PartsOf(s: string, before: string, text: string, gap: string, rest: string)
    requires s == before + (text + gap + rest)
    ensures |before| + |text| + |gap| <= |s| && s[|before|..|before| + |text|] == text
    ensures s[|before| + |text|..|before| + |text| + |gap|] == gap
    ensures gap != "" ==> |before| + |text| < |s| && s[|before| + |text|] == gap[0]
  {
    assert s == before + text + gap + rest;
  }

  lemma GapIsThere(p: Piece)
    requires Written(p)
    ensures p.gap != "" && IsGap(p.gap)
  {
  }

  lemma EndsThere(s: string)
    ensures Tokens(s, |s|) == []
  {
  }
}
