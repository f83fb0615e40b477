/** Tokens of a BSDL text: a lexer with one token of lookahead, against the text's token list. */
module BsdlLexer {

  datatype TokenType = Identifier | StringLiteral | Integer | LeftParen | RightParen | Comma | Semicolon | Colon
    | Ampersand | Dot | Assign | EndOfFile | Invalid

  datatype Token = Token(kind: TokenType, value: string)

  const END := Token(EndOfFile, "")

  predicate IsAlpha(c: char) { 'a' <= c <= 'z' || 'A' <= c <= 'Z' }

  predicate IsDigit(c: char) { '0' <= c <= '9' }

  predicate IsBlank(c: char) { c in " \t\r\n" }

  function ToUpper(c: char): char {
    if 'a' <= c <= 'z' then c - 32 as char else c
  }

  function Upper(s: string): (r: string)
    ensures |r| == |s|
  {
    seq(|s|, i requires 0 <= i < |s| => ToUpper(s[i]))
  }

  // ----------------------------------------------------- the text's tokens

  predicate IsNumber(s: string) {
    s != "" && forall i :: 0 <= i < |s| ==> IsDigit(s[i])
  }

  /** The end of the longest run of word characters, or of digits, from pos. */
  function WordEnd(s: string, pos: nat): (e: nat)
    requires pos <= |s|
    ensures pos <= e <= |s|
    decreases |s| - pos
  {
    if pos < |s| && (IsAlpha(s[pos]) || IsDigit(s[pos]) || s[pos] == '_') then WordEnd(s, pos + 1) else pos
  }

  function NumberEnd(s: string, pos: nat): (e: nat)
    requires pos <= |s|
    ensures pos <= e <= |s| && forall i :: pos <= i < e ==> IsDigit(s[i])
    decreases |s| - pos
  {
    if pos < |s| && IsDigit(s[pos]) then NumberEnd(s, pos + 1) else pos
  }

  function LineEnd(s: string, pos: nat): (e: nat)
    requires pos <= |s|
    ensures pos <= e <= |s|
    decreases |s| - pos
  {
    if pos < |s| && s[pos] != '\n' then LineEnd(s, pos + 1) else pos
  }

  predicate CommentAt(s: string, pos: nat) {
    pos + 1 < |s| && s[pos] == '-' && s[pos + 1] == '-'
  }

  /** Past blanks and comments. */
  function Skip(s: string, pos: nat): (e: nat)
    requires pos <= |s|
    ensures pos <= e <= |s|
    decreases |s| - pos
  {
    if pos < |s| && IsBlank(s[pos]) then Skip(s, pos + 1)
    else if CommentAt(s, pos) then Skip(s, LineEnd(s, pos + 2))
    else pos
  }

  /** The rest of a string literal, with "" standing for a quote, and where it ends; None when it never does. */
  datatype Literal = Unterminated | Literal(value: string, end: nat)

  function LiteralFrom(s: string, pos: nat): (l: Literal)
    requires pos <= |s|
    ensures l.Literal? ==> pos < l.end <= |s|
    decreases |s| - pos
  {
    if pos == |s| then Unterminated
    else if s[pos] != '"' then Prepend(s[pos], LiteralFrom(s, pos + 1))
    else if pos + 1 < |s| && s[pos + 1] == '"' then Prepend('"', LiteralFrom(s, pos + 2))
    else Literal("", pos + 1)
  }

  function Prepend(c: char, l: Literal): Literal {
    if l.Literal? then Literal([c] + l.value, l.end) else l
  }

  function Punctuation(c: char): TokenType {
    match c
    case '(' => LeftParen
    case ')' => RightParen
    case ',' => Comma
    case ';' => Semicolon
    case '&' => Ampersand
    case '.' => Dot
    case ':' => Colon
    case '*' => Identifier
    case _ => Invalid
  }

  /** The token that starts at pos, which is not blank, and where it ends. */
  function TokenAt(s: string, pos: nat): (r: (Token, nat))
    requires pos < |s|
    ensures pos < r.1 <= |s| && r.0.kind != EndOfFile && (r.0.kind == Integer ==> IsNumber(r.0.value))
  {
    var c := s[pos];
    if IsAlpha(c) || c == '_' then (Token(Identifier, Upper(s[pos..WordEnd(s, pos + 1)])), WordEnd(s, pos + 1))
    else if c == '"' then
      match LiteralFrom(s, pos + 1)
      case Unterminated => (Token(Invalid, "Unterminated string literal"), |s|)
      case Literal(value, end) => (Token(StringLiteral, value), end)
    else if IsDigit(c) then (Token(Integer, s[pos..NumberEnd(s, pos + 1)]), NumberEnd(s, pos + 1))
    else if c == ':' && pos + 1 < |s| && s[pos + 1] == '=' then (Token(Assign, ":="), pos + 2)
    else (Token(Punctuation(c), [c]), pos + 1)
  }

  /** All tokens from pos on. */
  function Tokens(s: string, pos: nat): (r: seq<Token>)
    requires pos <= |s|
    ensures forall i :: 0 <= i < |r| ==> r[i].kind != EndOfFile && (r[i].kind == Integer ==> IsNumber(r[i].value))
    decreases |s| - pos
  {
    var p := Skip(s, pos);
    if p == |s| then [] else [TokenAt(s, p).0] + Tokens(s, TokenAt(s, p).1)
  }

  /** The next token of a list; past its end only end-of-file tokens come. */
  function First(tokens: seq<Token>): Token { if tokens == [] then END else tokens[0] }

  function Rest(tokens: seq<Token>): seq<Token> { if tokens == [] then [] else tokens[1..] }

  // --------------------------------------------------------------- the lexer

  class Lexer {
    const source: string
    var pos: nat
    var hasPeeked: bool
    var peekedToken: Token

    constructor (source: string)
      ensures Valid() && Remaining() == Tokens(source, 0)
    {
      this.source, pos, hasPeeked, peekedToken := source, 0, false, END;
    }

    ghost predicate Valid()
      reads this
    {
      && pos <= |source|
      && (hasPeeked && peekedToken.kind == EndOfFile ==> peekedToken == END && Tokens(source, pos) == [])
      && (hasPeeked && peekedToken.kind == Integer ==> IsNumber(peekedToken.value))
    }

    /** The tokens still to come, the looked-at one included. */
    ghost function Remaining(): seq<Token>
      requires Valid()
      reads this
    {
      if hasPeeked && peekedToken.kind != EndOfFile then [peekedToken] + Tokens(source, pos) else Tokens(source, pos)
    }

    method SkipWhitespace()
      requires pos <= |source|
      modifies this`pos
      ensures pos == Skip(source, old(pos))
    {
      while pos < |source|
        invariant old(pos) <= pos <= |source| && Skip(source, pos) == Skip(source, old(pos))
        decreases |source| - pos
      {
        var c := source[pos];
        if c == ' ' || c == '\t' || c == '\r' || c == '\n' {
          pos := pos + 1;
        } else if c == '-' && pos + 1 < |source| && source[pos + 1] == '-' {
          SkipComment();
        } else {
          break;
        }
      }
    }

    method SkipComment()
      requires CommentAt(source, pos)
      modifies this`pos
      ensures pos == LineEnd(source, old(pos) + 2)
    {
      while pos < |source| && source[pos] != '\n'
        invariant old(pos) <= pos <= |source|
        invariant pos == old(pos) || pos == old(pos) + 1 || LineEnd(source, pos) == LineEnd(source, old(pos) + 2)
        invariant pos < old(pos) + 2 ==> pos < |source| && source[pos] != '\n'
        decreases |source| - pos
      {
        pos := pos + 1;
      }
    }

    method ReadIdentifier() returns (t: Token)
      requires pos < |source| && (IsAlpha(source[pos]) || source[pos] == '_')
      modifies this`pos
      ensures (t, pos) == TokenAt(source, old(pos))
    {
      var value := "";
      while pos < |source|
        invariant old(pos) <= pos <= |source| && value == source[old(pos)..pos]
        invariant pos > old(pos) ==> WordEnd(source, pos) == WordEnd(source, old(pos) + 1)
        decreases |source| - pos
      {
        var c := source[pos];
        if IsAlpha(c) || IsDigit(c) || c == '_' {
          assert source[old(pos)..pos + 1] == source[old(pos)..pos] + [c];
          value := value + [c];
          pos := pos + 1;
        } else {
          break;
        }
      }
      t := Token(Identifier, Upper(value));
    }

    method ReadInteger() returns (t: Token)
      requires pos < |source| && IsDigit(source[pos])
      modifies this`pos
      ensures (t, pos) == TokenAt(source, old(pos))
    {
      var value := "";
      while pos < |source| && IsDigit(source[pos])
        invariant old(pos) <= pos <= |source| && value == source[old(pos)..pos]
        invariant pos > old(pos) ==> NumberEnd(source, pos) == NumberEnd(source, old(pos) + 1)
        decreases |source| - pos
      {
        assert source[old(pos)..pos + 1] == source[old(pos)..pos] + [source[pos]];
        value := value + [source[pos]];
        pos := pos + 1;
      }
      t := Token(Integer, value);
    }

    method ReadStringLiteral() returns (t: Token)
      requires pos < |source| && source[pos] == '"'
      modifies this`pos
      ensures (t, pos) == TokenAt(source, old(pos))
    {
      pos := pos + 1;
      var value := "";
      ghost var start := pos;
      NothingAhead(LiteralFrom(source, start));
      while pos < |source|
        invariant start <= pos <= |source|
        invariant LiteralFrom(source, start) == Ahead(value, LiteralFrom(source, pos))
        decreases |source| - pos
      {
        var c := source[pos];
        if c == '"' {
          pos := pos + 1;
          if pos < |source| && source[pos] == '"' {
            AheadSnoc(value, '"', LiteralFrom(source, pos + 1));
            value := value + "\"";
            pos := pos + 1;
            continue;
          }
          assert value + "" == value;
          return Token(StringLiteral, value);
        }
        AheadSnoc(value, c, LiteralFrom(source, pos + 1));
        value := value + [c];
        pos := pos + 1;
      }
      t := Token(Invalid, "Unterminated string literal");
    }

    method NextToken() returns (t: Token)
      requires Valid()
      modifies this
      ensures Valid() && t == First(old(Remaining())) && Remaining() == Rest(old(Remaining()))
      ensures !hasPeeked && (t.kind == Integer ==> IsNumber(t.value))
    {
      hide Skip, TokenAt;
      if hasPeeked {
        hasPeeked := false;
        return peekedToken;
      }
      ghost var start := pos;
      SkipWhitespace();
      if pos >= |source| { return END; }
      t := Lex();
      assert Tokens(source, start) == [t] + Tokens(source, pos);
    }

    /** One token from a position that is neither blank nor a comment. */
    method Lex() returns (t: Token)
      requires pos < |source|
      modifies this`pos
      ensures (t, pos) == TokenAt(source, old(pos))
    {
      var c := source[pos];
      if IsAlpha(c) || c == '_' {
        t := ReadIdentifier();
        return;
      }
      if c == '"' {
        t := ReadStringLiteral();
        return;
      }
      if IsDigit(c) {
        t := ReadInteger();
        return;
      }
      pos := pos + 1;
      if c == ':' && pos < |source| && source[pos] == '=' {
        pos := pos + 1;
        return Token(Assign, ":=");
      }
      t := Token(Punctuation(c), [c]);
    }

    /** Looking ahead consumes nothing. */
    method PeekToken() returns (t: Token)
      requires Valid()
      modifies this
      ensures Valid() && hasPeeked && t == peekedToken == First(old(Remaining())) && Remaining() == old(Remaining())
    {
      if !hasPeeked {
        peekedToken := NextToken();
        hasPeeked := true;
      }
      t := peekedToken;
    }
  }

  function Ahead(value: string, l: Literal): Literal {
    if l.Literal? then Literal(value + l.value, l.end) else l
  }

  lemma NothingAhead(l: Literal)
    ensures Ahead("", l) == l
  {
    if l.Literal? { assert "" + l.value == l.value; }
  }

  lemma AheadSnoc(value: string, c: char, l: Literal)
    ensures Ahead(value, Prepend(c, l)) == Ahead(value + [c], l)
  {
    if l.Literal? { assert value + ([c] + l.value) == (value + [c]) + l.value; }
  }
}
