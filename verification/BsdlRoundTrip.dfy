/** A whole device description as tokens, and what the parser makes of it. */
module BsdlRoundTrip {
  import opened Bytes
  import opened Bsdl
  import opened BsdlLexer
  import opened BsdlParser
  import opened BsdlSpelling
  import opened BsdlWriter

  function Word(s: string): Token { Token(Identifier, s) }

  function Number(n: nat): Token { Token(Integer, Decimal(n)) }

  const OPEN := Token(LeftParen, "(")

  const CLOSE := Token(RightParen, ")")

  const COMMA := Token(Comma, ",")

  const SEMICOLON := Token(Semicolon, ";")

  const COLON := Token(Colon, ":")

  const AND := Token(Ampersand, "&")

  // ------------------------------------------------------------------ ports

  /** A port's name, with an index or without. */
  datatype PortName = PortName(word: string, index: string)
  {
    function Text(): string { if index == "" then word else word + "(" + index + ")" }
  }

  datatype PortDecl = PortDecl(names: seq<PortName>, direction: PinDirection, range: Option<(nat, nat)>)

  function Texts(names: seq<PortName>): (r: seq<string>)
    ensures |r| == |names|
  {
    seq(|names|, i requires 0 <= i < |names| => names[i].Text())
  }

  function DirectionWord(d: PinDirection): string {
    match d
    case In => "IN"
    case Out => "OUT"
    case InOut => "INOUT"
    case Buffer => "BUFFER"
    case Linkage => "LINKAGE"
  }

  function IndexTokens(index: string): seq<Token> {
    if index == "" then [] else [OPEN, Token(Integer, index), CLOSE]
  }

  function MoreTokens(names: seq<PortName>): seq<Token> {
    if names == [] then []
    else [COMMA, Word(names[0].word)] + (IndexTokens(names[0].index) + MoreTokens(names[1..]))
  }

  function TypeTokens(range: Option<(nat, nat)>): seq<Token> {
    match range
    case None => [Word("BIT")]
    case Some(bounds) => [Word("BIT_VECTOR"), OPEN, Number(bounds.0), Word("TO"), Number(bounds.1), CLOSE]
  }

  /** A declaration behind its first word. */
  function DeclTokens(p: PortDecl, after: seq<Token>): seq<Token>
    requires p.names != []
  {
    IndexTokens(p.names[0].index)
      + (MoreTokens(p.names[1..]) + ([COLON, Word(DirectionWord(p.direction))] + (TypeTokens(p.range) + after)))
  }

  /** The declarations up to the closing parenthesis, and what follows it. */
  function PortTokens(ports: seq<PortDecl>, after: seq<Token>): seq<Token>
    requires forall i :: 0 <= i < |ports| ==> ports[i].names != []
  {
    if ports == [] then [CLOSE] + after
    else
      var more := if |ports| == 1 then [CLOSE] + after else [SEMICOLON] + PortTokens(ports[1..], after);
      [Word(ports[0].names[0].word)] + DeclTokens(ports[0], more)
  }

  function PinItems(ports: seq<PortDecl>): (r: seq<Item>)
    ensures |r| == |ports|
  {
    seq(|ports|, i requires 0 <= i < |ports| => Pins(Texts(ports[i].names), ports[i].direction))
  }

  lemma IndexReads(index: string, rest: seq<Token>)
    requires First(rest).kind != LeftParen
    ensures IndexAt(IndexTokens(index) + rest) == (PortName("", index).Text(), rest)
  {
    var tokens := IndexTokens(index) + rest;
    if index == "" {
      assert tokens == rest;
    } else {
      assert tokens[1..] == [Token(Integer, index), CLOSE] + rest;
      assert tokens[1..][1..] == [CLOSE] + rest;
      assert Inside([CLOSE] + rest) == ("", [CLOSE] + rest);
      assert index + "" == index;
      assert Inside(tokens[1..]) == (index, [CLOSE] + rest);
      assert ([CLOSE] + rest)[1..] == rest;
      assert "" + "(" + index + ")" == "(" + index + ")";
    }
  }

  lemma {:induction false} MoreNamesRead(done: seq<string>, names: seq<PortName>, rest: seq<Token>)
    requires First(rest).kind !in {Comma, LeftParen}
    ensures MoreNames(done, MoreTokens(names) + rest) == (done + Texts(names), rest)
    decreases |names|
  {
    hide IndexAt, IndexTokens, Texts, MoreTokens, PortName.Text;
    NamesSplit(names, rest, done);
    if names != [] {
      var n, more := names[0], MoreTokens(names[1..]) + rest;
      MoreStarts(names[1..], rest);
      MoreStep(done, n, more);
      MoreNamesRead(done + [n.Text()], names[1..], rest);
    }
  }

  lemma NamesSplit(names: seq<PortName>, rest: seq<Token>, done: seq<string>)
    ensures names == [] ==> MoreTokens(names) + rest == rest && done + Texts(names) == done
    ensures names != [] ==>
      && MoreTokens(names) + rest
        == [COMMA, Word(names[0].word)] + (IndexTokens(names[0].index) + (MoreTokens(names[1..]) + rest))
      && done + [names[0].Text()] + Texts(names[1..]) == done + Texts(names)
  {
    hide IndexTokens, PortName.Text, Texts;
    TextsSplit(names, done);
    if names == [] {
      assert [] + rest == rest;
    } else {
      Regroup([COMMA, Word(names[0].word)], IndexTokens(names[0].index), MoreTokens(names[1..]), rest);
    }
  }

  lemma TextsSplit(names: seq<PortName>, done: seq<string>)
    ensures names == [] ==> done + Texts(names) == done
    ensures names != [] ==> done + [names[0].Text()] + Texts(names[1..]) == done + Texts(names)
  {
    hide PortName.Text;
  }

  lemma Regroup(a: seq<Token>, b: seq<Token>, c: seq<Token>, d: seq<Token>)
    ensures a + (b + c) + d == a + (b + (c + d))
  {
  }

  lemma MoreStep(done: seq<string>, n: PortName, more: seq<Token>)
    requires First(more).kind != LeftParen
    ensures MoreNames(done, [COMMA, Word(n.word)] + (IndexTokens(n.index) + more)) == MoreNames(done + [n.Text()], more)
  {
    hide IndexAt, IndexTokens;
    var tokens := [COMMA, Word(n.word)] + (IndexTokens(n.index) + more);
    assert tokens[1..] == [Word(n.word)] + (IndexTokens(n.index) + more);
    assert Rest(tokens[1..]) == IndexTokens(n.index) + more;
    IndexReads(n.index, more);
    TextIs(n);
  }

  lemma MoreStarts(names: seq<PortName>, rest: seq<Token>)
    requires First(rest).kind != LeftParen
    ensures First(MoreTokens(names) + rest).kind != LeftParen
  {
    if names == [] { assert MoreTokens(names) + rest == rest; }
  }

  lemma TextIs(n: PortName)
    ensures n.Text() == n.word + PortName("", n.index).Text()
  {
  }

  lemma TypeReads(range: Option<(nat, nat)>, last: Token, after: seq<Token>)
    requires last.kind in {Semicolon, RightParen}
    ensures TypeEnd(TypeTokens(range) + ([last] + after), 0) == (last.kind == RightParen, after)
  {
    var tail := [last] + after;
    assert tail[1..] == after;
    match range
    case None =>
      assert ([Word("BIT")] + tail)[1..] == tail;
    case Some(bounds) => VectorReads(bounds.0, bounds.1, tail);
  }

  lemma StepOver(t: Token, rest: seq<Token>, depth: nat)
    requires t.kind != Semicolon && (t.kind == RightParen ==> depth > 0)
    ensures TypeEnd([t] + rest, depth) ==
      TypeEnd(rest, if t.kind == LeftParen then depth + 1 else if t.kind == RightParen then depth - 1 else depth)
  {
    assert ([t] + rest)[1..] == rest;
  }

  lemma VectorReads(a: nat, b: nat, tail: seq<Token>)
    ensures TypeEnd(TypeTokens(Some((a, b))) + tail, 0) == TypeEnd(tail, 0)
  {
    hide TypeEnd;
    var t5 := [CLOSE] + tail;
    var t4 := [Number(b)] + t5;
    var t3 := [Word("TO")] + t4;
    var t2 := [Number(a)] + t3;
    var t1 := [OPEN] + t2;
    StepOver(Word("BIT_VECTOR"), t1, 0);
    StepOver(OPEN, t2, 0);
    StepOver(Number(a), t3, 1);
    StepOver(Word("TO"), t4, 1);
    StepOver(Number(b), t5, 1);
    StepOver(CLOSE, tail, 1);
    assert TypeTokens(Some((a, b))) + tail == [Word("BIT_VECTOR")] + t1;
  }

  lemma DirectionReads(d: PinDirection)
    ensures DirectionOf(DirectionWord(d)) == d
  {
  }

  /** One declaration, up to its semicolon or to the parenthesis that closes the list. */
  lemma PortReads(p: PortDecl, last: Token, after: seq<Token>)
    requires p.names != [] && last.kind in {Semicolon, RightParen}
    ensures Port(p.names[0].word, DeclTokens(p, [last] + after))
      == ([Pins(Texts(p.names), p.direction)], last.kind == RightParen, after)
  {
    hide IndexAt, IndexTokens, TypeEnd, TypeTokens, MoreNames, MoreTokens;
    var n := p.names[0];
    var end := TypeTokens(p.range) + ([last] + after);
    var tail := [COLON, Word(DirectionWord(p.direction))] + end;
    MoreStarts(p.names[1..], tail);
    IndexReads(n.index, MoreTokens(p.names[1..]) + tail);
    TextIs(n);
    MoreNamesRead([n.Text()], p.names[1..], tail);
    assert [n.Text()] + Texts(p.names[1..]) == Texts(p.names);
    assert Rest(Rest(tail)) == end;
    DirectionReads(p.direction);
    TypeReads(p.range, last, after);
  }

  lemma PortThen(tokens: seq<Token>, word: string, pins: seq<Item>, closed: bool, more: seq<Token>)
    requires tokens != [] && tokens[0] == Word(word) && Port(word, tokens[1..]) == (pins, closed, more)
    ensures PortList(tokens) == if closed then (pins, more) else (pins + PortList(more).0, PortList(more).1)
  {
    hide Port;
  }

  lemma {:induction false} PortsRead(ports: seq<PortDecl>, after: seq<Token>)
    requires forall i :: 0 <= i < |ports| ==> ports[i].names != []
    ensures PortList(PortTokens(ports, after)) == (PinItems(ports), after)
    decreases |ports|
  {
    hide Port, DeclTokens, Texts;
    var tokens := PortTokens(ports, after);
    if ports == [] {
      assert tokens[1..] == after && PinItems(ports) == [];
    } else {
      var p, rest := ports[0], PortTokens(ports[1..], after);
      var last, more := if |ports| == 1 then CLOSE else SEMICOLON, if |ports| == 1 then after else rest;
      assert tokens[1..] == DeclTokens(p, [last] + more);
      PortReads(p, last, more);
      var pins := [Pins(Texts(p.names), p.direction)];
      PortThen(tokens, p.names[0].word, pins, last.kind == RightParen, more);
      if |ports| > 1 { PortsRead(ports[1..], after); }
      assert pins + PinItems(ports[1..]) == PinItems(ports);
      assert |ports| == 1 ==> PinItems(ports[1..]) == [] && pins + [] == pins;
    }
  }

  // ------------------------------------------------------------- statements

  /** A string cut into literals of w characters. */
  function LiteralTokens(text: string, w: nat, after: seq<Token>): seq<Token>
    requires w > 0
    decreases |text|
  {
    if |text| <= w then [Token(StringLiteral, text)] + after
    else [Token(StringLiteral, text[..w]), AND] + LiteralTokens(text[w..], w, after)
  }

  lemma {:induction false} LiteralsRead(text: string, w: nat, after: seq<Token>)
    requires w > 0 && First(after).kind !in {StringLiteral, Ampersand}
    ensures Content(LiteralTokens(text, w, after)) == (text, after)
    ensures Joined(LiteralTokens(text, w, after)) == (text, after)
    decreases |text|
  {
    var tokens := LiteralTokens(text, w, after);
    if |text| <= w {
      assert tokens[1..] == after && text + "" == text && Joined(after) == ("", after);
    } else {
      var rest := LiteralTokens(text[w..], w, after);
      LiteralsRead(text[w..], w, after);
      assert tokens[1..] == [AND] + rest && ([AND] + rest)[1..] == rest;
      assert "" + text[w..] == text[w..] && text[..w] + text[w..] == text;
      assert Joined([AND] + rest) == (text[w..], after);
    }
  }

  /** An attribute of an entity, up to its value. */
  function AttributeTokens(entity: string, attribute: string, value: seq<Token>): seq<Token> {
    [Word("ATTRIBUTE"), Word(attribute), Word("OF"), Word(entity), COLON, Word("ENTITY"), Word("IS")] + value
  }

  lemma AttributeReads(entity: string, attribute: string, value: seq<Token>)
    requires entity != "IS"
    ensures Items(AttributeTokens(entity, attribute, value))
      == ValueOf(attribute, value).0 + Items(ValueOf(attribute, value).1)
  {
    hide ValueOf, Attribute;
    var rest := [Word(entity), COLON, Word("ENTITY"), Word("IS")] + value;
    var of := [Word("OF")] + rest;
    var named := [Word(attribute)] + of;
    Behind(Word("ATTRIBUTE"), named);
    assert AttributeTokens(entity, attribute, value) == [Word("ATTRIBUTE")] + named;
    NamedReads(entity, attribute, value, of, rest);
  }

  lemma Behind(t: Token, rest: seq<Token>)
    ensures First([t] + rest) == t && Rest([t] + rest) == rest && ([t] + rest)[1..] == rest
  {
  }

  lemma NamedReads(entity: string, attribute: string, value: seq<Token>, of: seq<Token>, rest: seq<Token>)
    requires entity != "IS"
    requires of == [Word("OF")] + rest && rest == [Word(entity), COLON, Word("ENTITY"), Word("IS")] + value
    ensures Attribute([Word(attribute)] + of) == ValueOf(attribute, value)
  {
    hide ValueOf;
    Behind(Word(attribute), of);
    Behind(Word("OF"), rest);
    IsReads(entity, value);
  }

  lemma IsReads(entity: string, value: seq<Token>)
    requires entity != "IS"
    ensures AfterIs([Word(entity), COLON, Word("ENTITY"), Word("IS")] + value) == Some(value)
  {
    var t3 := [Word("IS")] + value;
    var t2 := [Word("ENTITY")] + t3;
    var t1 := [COLON] + t2;
    Behind(Word("IS"), value);
    Behind(Word("ENTITY"), t3);
    Behind(COLON, t2);
    Behind(Word(entity), t1);
    assert [Word(entity), COLON, Word("ENTITY"), Word("IS")] + value == [Word(entity)] + t1;
    assert AfterIs(t1) == AfterIs(t2) == AfterIs(t3);
  }

  lemma {:induction false} NextSemicolon(front: seq<Token>, after: seq<Token>)
    requires forall i :: 0 <= i < |front| ==> front[i].kind != Semicolon
    ensures AfterSemicolon(front + ([SEMICOLON] + after)) == after
  {
    var tokens := front + ([SEMICOLON] + after);
    if front == [] {
      assert tokens[1..] == after;
    } else {
      assert tokens[1..] == front[1..] + ([SEMICOLON] + after);
      NextSemicolon(front[1..], after);
    }
  }

  /** An attribute whose value is a number. */
  lemma NumberReads(entity: string, attribute: string, n: nat, after: seq<Token>)
    requires entity != "IS" && attribute in ["INSTRUCTION_LENGTH", "BOUNDARY_LENGTH"]
    ensures Items(AttributeTokens(entity, attribute, [Number(n), SEMICOLON] + after))
      == [if attribute == "INSTRUCTION_LENGTH" then Length(Decimal(n)) else Slots(Decimal(n))] + Items(after)
  {
    hide Items, AfterSemicolon, Decimal;
    var value := [Number(n), SEMICOLON] + after;
    AttributeReads(entity, attribute, value);
    DecimalReads(n);
    NextSemicolon([], after);
    assert Rest(value) == [] + ([SEMICOLON] + after);
  }

  /** An attribute whose value is a string. */
  lemma TextReads(entity: string, attribute: string, text: string, w: nat, after: seq<Token>)
    requires entity != "IS" && w > 0
    requires attribute in ["INSTRUCTION_OPCODE", "IDCODE_REGISTER", "BOUNDARY_REGISTER"]
    ensures Items(AttributeTokens(entity, attribute, LiteralTokens(text, w, [SEMICOLON] + after)))
      == [if attribute == "INSTRUCTION_OPCODE" then Opcodes(text)
          else if attribute == "IDCODE_REGISTER" then Code(text) else Cells(text)] + Items(after)
  {
    hide Items, AfterSemicolon, LiteralTokens, Content;
    var value := LiteralTokens(text, w, [SEMICOLON] + after);
    AttributeReads(entity, attribute, value);
    LiteralsRead(text, w, [SEMICOLON] + after);
    NextSemicolon([], after);
    assert [] + ([SEMICOLON] + after) == [SEMICOLON] + after;
  }

  predicate IsKeyword(t: Token) { t.kind == Identifier && t.value in ["ENTITY", "PORT", "ATTRIBUTE"] }

  lemma {:induction false} OthersAreSkipped(front: seq<Token>, after: seq<Token>)
    requires forall i :: 0 <= i < |front| ==> !IsKeyword(front[i])
    ensures Items(front + after) == Items(after)
    decreases |front|
  {
    hide Entity, Ports, Attribute;
    if front == [] {
      assert front + after == after;
    } else {
      assert (front + after)[0] == front[0] && (front + after)[1..] == front[1..] + after;
      OthersAreSkipped(front[1..], after);
    }
  }

  lemma EntityReads(name: string, header: seq<Token>)
    ensures Items([Word("ENTITY"), Word(name)] + header) == [Name(name)] + Items(AfterSemicolon(header))
  {
    hide AfterSemicolon;
    var tokens := [Word("ENTITY"), Word(name)] + header;
    assert tokens[1..] == [Word(name)] + header && Rest(tokens[1..]) == header;
  }

  function PortClause(ports: seq<PortDecl>, after: seq<Token>): seq<Token>
    requires forall i :: 0 <= i < |ports| ==> ports[i].names != []
  {
    [Word("PORT"), OPEN] + PortTokens(ports, [SEMICOLON] + after)
  }

  lemma PortClauseReads(ports: seq<PortDecl>, after: seq<Token>)
    requires forall i :: 0 <= i < |ports| ==> ports[i].names != []
    ensures Items(PortClause(ports, after)) == PinItems(ports) + Items(after)
  {
    hide PortTokens, PortList, PinItems;
    var tokens, list := PortClause(ports, after), PortTokens(ports, [SEMICOLON] + after);
    assert tokens[1..] == [OPEN] + list && ([OPEN] + list)[1..] == list;
    PortsRead(ports, [SEMICOLON] + after);
    assert ([SEMICOLON] + after)[1..] == after;
    assert Ports(tokens[1..]) == (PinItems(ports), after);
  }

  // ------------------------------------------------- ports behind no generic clause

  predicate NoKeywords(tokens: seq<Token>) { forall i :: 0 <= i < |tokens| ==> !IsKeyword(tokens[i]) }

  predicate NoSemicolons(tokens: seq<Token>) { forall i :: 0 <= i < |tokens| ==> tokens[i].kind != Semicolon }

  predicate PlainNames(p: PortDecl) {
    forall i :: 0 <= i < |p.names| ==> !IsKeyword(Word(p.names[i].word))
  }

  /** A header ends at its own semicolon, or at the next one behind it. */
  lemma {:induction false} HeaderEnds(header: seq<Token>, tail: seq<Token>)
    requires NoKeywords(header)
    ensures NoSemicolons(header) ==> AfterSemicolon(header + tail) == AfterSemicolon(tail)
    ensures !NoSemicolons(header) ==> Items(AfterSemicolon(header + tail)) == Items(tail)
    decreases |header|
  {
    hide Items, IsKeyword;
    if header == [] {
      assert header + tail == tail;
    } else {
      var rest := header[1..];
      assert (header + tail)[0] == header[0] && (header + tail)[1..] == rest + tail;
      if header[0].kind == Semicolon {
        OthersAreSkipped(rest, tail);
      } else {
        assert forall i :: 1 <= i < |header| ==> header[i] == rest[i - 1];
        HeaderEnds(rest, tail);
      }
    }
  }

  lemma {:induction false} MoreIsPlain(names: seq<PortName>)
    requires forall i :: 0 <= i < |names| ==> !IsKeyword(Word(names[i].word))
    ensures NoKeywords(MoreTokens(names))
  {
    if names != [] { MoreIsPlain(names[1..]); }
  }

  lemma DeclIsPlain(p: PortDecl, after: seq<Token>)
    requires p.names != [] && PlainNames(p)
    ensures DeclTokens(p, after) == DeclTokens(p, []) + after && NoKeywords(DeclTokens(p, []))
  {
    hide MoreTokens, IndexTokens, TypeTokens, DirectionWord;
    MoreIsPlain(p.names[1..]);
    TypesArePlain(p);
    assert TypeTokens(p.range) + [] == TypeTokens(p.range);
  }

  lemma TypesArePlain(p: PortDecl)
    requires p.names != []
    ensures NoKeywords(IndexTokens(p.names[0].index)) && NoKeywords(TypeTokens(p.range))
    ensures NoKeywords([COLON, Word(DirectionWord(p.direction))])
  {
  }

  lemma {:induction false} PortsArePlain(ports: seq<PortDecl>, after: seq<Token>)
    requires forall i :: 0 <= i < |ports| ==> ports[i].names != [] && PlainNames(ports[i])
    ensures PortTokens(ports, after) == PortTokens(ports, []) + after && NoKeywords(PortTokens(ports, []))
    decreases |ports|
  {
    hide DeclTokens, NoKeywords, PlainNames;
    if ports == [] {
      CloseIsPlain();
    } else {
      var p, rest := ports[0], ports[1..];
      PortsArePlain(rest, after);
      if |ports| == 1 {
        CloseIsPlain();
        PortIsPlain(p, [CLOSE], after);
      } else {
        BehindSemicolon(PortTokens(rest, []), after);
        PortIsPlain(p, [SEMICOLON] + PortTokens(rest, []), after);
      }
    }
  }

  lemma CloseIsPlain()
    ensures [CLOSE] + [] == [CLOSE] && NoKeywords([CLOSE])
  {
  }

  lemma BehindSemicolon(tokens: seq<Token>, after: seq<Token>)
    requires NoKeywords(tokens)
    ensures NoKeywords([SEMICOLON] + tokens) && [SEMICOLON] + tokens + after == [SEMICOLON] + (tokens + after)
  {
  }

  lemma PortIsPlain(p: PortDecl, end: seq<Token>, after: seq<Token>)
    requires p.names != [] && PlainNames(p) && NoKeywords(end)
    ensures var w := [Word(p.names[0].word)];
      w + DeclTokens(p, end + after) == w + DeclTokens(p, end) + after && NoKeywords(w + DeclTokens(p, end))
  {
    hide DeclTokens, IsKeyword;
    DeclIsPlain(p, end + after);
    DeclIsPlain(p, end);
    assert DeclTokens(p, []) + (end + after) == DeclTokens(p, []) + end + after;
  }

  /** The ports of an entity are read exactly when a semicolon, as a generic clause has one, stands between its name
      and its port clause: a PORT that follows IS directly is skipped with the header. */
  lemma PortsReadIffGeneric(name: string, header: seq<Token>, ports: seq<PortDecl>, after: seq<Token>)
    requires NoKeywords(header) && forall i :: 0 <= i < |ports| ==> ports[i].names != [] && PlainNames(ports[i])
    ensures Items([Word("ENTITY"), Word(name)] + (header + PortClause(ports, after)))
      == [Name(name)] + ((if NoSemicolons(header) then [] else PinItems(ports)) + Items(after))
  {
    hide Items, PortTokens, PinItems, IsKeyword;
    var clause := PortClause(ports, after);
    EntityReads(name, header + clause);
    HeaderEnds(header, clause);
    if NoSemicolons(header) {
      ClauseSkipped(ports, after);
      assert [] + Items(after) == Items(after);
    } else {
      PortClauseReads(ports, after);
    }
  }

  lemma ClauseSkipped(ports: seq<PortDecl>, after: seq<Token>)
    requires forall i :: 0 <= i < |ports| ==> ports[i].names != [] && PlainNames(ports[i])
    ensures Items(AfterSemicolon(PortClause(ports, after))) == Items(after)
  {
    hide Items, PortTokens;
    var list, tail := PortTokens(ports, []), [SEMICOLON] + after;
    PortsArePlain(ports, tail);
    HeaderEnds(list, tail);
    NextSemicolon([], after);
    assert [] + tail == tail;
    OthersAreSkipped([SEMICOLON], after);
    var clause := [Word("PORT"), OPEN] + (list + tail);
    assert clause[1..] == [OPEN] + (list + tail) && ([OPEN] + (list + tail))[1..] == list + tail;
    assert AfterSemicolon(clause) == AfterSemicolon(list + tail);
  }

  // ------------------------------------------------------- whole descriptions

  /** A device to be written down; its strings are cut into literals of `width` characters, and `between` stands
      between two entries of one. */
  datatype Description = Description(name: string, package_: string, ports: seq<PortDecl>, irLength: nat,
                                     opcodes: seq<Opcode>, idcode: nat, length: nat, cells: seq<BoundaryCell>,
                                     width: nat, between: string)

  predicate Describable(x: Description) {
    && x.name !in ["ENTITY", "PORT", "ATTRIBUTE", "IS"] && x.width > 0 && Separates(x.between)
    && (forall i :: 0 <= i < |x.ports| ==> x.ports[i].names != [])
    && (forall i :: 0 <= i < |x.opcodes| ==> IsOpcode(x.opcodes[i]))
    && x.irLength < 0x8000_0000 && x.idcode < 0x1_0000_0000 && x.length <= 65536
    && (forall i :: 0 <= i < |x.cells| ==> IsCell(x.cells[i]) && x.cells[i].position < x.length)
  }

  function GenericClause(package_: string): seq<Token> {
    [Word("IS"), Word("GENERIC"), OPEN, Word("PHYSICAL_PIN_MAP"), COLON, Word("STRING"), Token(Assign, ":="),
     Token(StringLiteral, package_), CLOSE]
  }

  function CellsPart(x: Description): seq<Token>
    requires Describable(x)
  {
    AttributeTokens(x.name, "BOUNDARY_REGISTER", LiteralTokens(RegisterText(x.cells, x.between), x.width,
      [SEMICOLON] + [Word("END"), Word(x.name), SEMICOLON]))
  }

  function BoundaryPart(x: Description): seq<Token>
    requires Describable(x)
  {
    AttributeTokens(x.name, "BOUNDARY_LENGTH", [Number(x.length), SEMICOLON] + CellsPart(x))
  }

  function IdcodePart(x: Description): seq<Token>
    requires Describable(x)
  {
    AttributeTokens(x.name, "IDCODE_REGISTER",
      LiteralTokens(Binary(x.idcode, 32), x.width, [SEMICOLON] + BoundaryPart(x)))
  }

  function OpcodePart(x: Description): seq<Token>
    requires Describable(x)
  {
    AttributeTokens(x.name, "INSTRUCTION_OPCODE",
      LiteralTokens(OpcodeText(x.opcodes, x.between), x.width, [SEMICOLON] + IdcodePart(x)))
  }

  function InstructionPart(x: Description): seq<Token>
    requires Describable(x)
  {
    [Word("USE"), Word("STD_1149_1_2001"), Token(Dot, "."), Word("ALL"), SEMICOLON]
      + AttributeTokens(x.name, "INSTRUCTION_LENGTH", [Number(x.irLength), SEMICOLON] + OpcodePart(x))
  }

  /** The tokens of a description, in the order of a BSDL file. */
  function DescriptionTokens(x: Description): seq<Token>
    requires Describable(x)
  {
    [Word("ENTITY"), Word(x.name)]
      + (GenericClause(x.package_) + ([SEMICOLON] + PortClause(x.ports, InstructionPart(x))))
  }

  function DescriptionItems(x: Description): seq<Item>
    requires Describable(x)
  {
    [Name(x.name)] + (PinItems(x.ports) + [Length(Decimal(x.irLength)), Opcodes(OpcodeText(x.opcodes, x.between)),
      Code(Binary(x.idcode, 32)), Slots(Decimal(x.length)), Cells(RegisterText(x.cells, x.between))])
  }

  lemma EndDeclaresNothing(name: string)
    requires name !in ["ENTITY", "PORT", "ATTRIBUTE"]
    ensures Items([Word("END"), Word(name), SEMICOLON]) == []
  {
    var t := [Word("END"), Word(name), SEMICOLON];
    OthersAreSkipped(t, []);
    assert t + [] == t;
  }

  lemma AttributesRead(x: Description)
    requires Describable(x)
    ensures Items(InstructionPart(x)) == [Length(Decimal(x.irLength)), Opcodes(OpcodeText(x.opcodes, x.between)),
      Code(Binary(x.idcode, 32)), Slots(Decimal(x.length)), Cells(RegisterText(x.cells, x.between))]
  {
    hide Items, AttributeTokens, LiteralTokens, OpcodeText, RegisterText, Binary, Decimal;
    EndDeclaresNothing(x.name);
    TextReads(x.name, "BOUNDARY_REGISTER", RegisterText(x.cells, x.between), x.width,
              [Word("END"), Word(x.name), SEMICOLON]);
    NumberReads(x.name, "BOUNDARY_LENGTH", x.length, CellsPart(x));
    TextReads(x.name, "IDCODE_REGISTER", Binary(x.idcode, 32), x.width, BoundaryPart(x));
    TextReads(x.name, "INSTRUCTION_OPCODE", OpcodeText(x.opcodes, x.between), x.width, IdcodePart(x));
    NumberReads(x.name, "INSTRUCTION_LENGTH", x.irLength, OpcodePart(x));
    var use := [Word("USE"), Word("STD_1149_1_2001"), Token(Dot, "."), Word("ALL"), SEMICOLON];
    OthersAreSkipped(use, AttributeTokens(x.name, "INSTRUCTION_LENGTH",
      [Number(x.irLength), SEMICOLON] + OpcodePart(x)));
  }

  lemma DescriptionDeclares(x: Description)
    requires Describable(x)
    ensures Items(DescriptionTokens(x)) == DescriptionItems(x)
  {
    hide Items, InstructionPart, PortClause, PinItems, OpcodeText, RegisterText, Binary, Decimal;
    var clause := PortClause(x.ports, InstructionPart(x));
    EntityReads(x.name, GenericClause(x.package_) + ([SEMICOLON] + clause));
    NextSemicolon(GenericClause(x.package_), clause);
    PortClauseReads(x.ports, InstructionPart(x));
    AttributesRead(x);
  }

  // --------------------------------------------------------- what is described

  function WithPorts(pins: map<string, PinDirection>, ports: seq<PortDecl>): map<string, PinDirection>
    decreases |ports|
  {
    if ports == [] then pins else WithPorts(WithPins(pins, Texts(ports[0].names), ports[0].direction), ports[1..])
  }

  predicate Declares(p: PortDecl, pin: string) { pin in Texts(p.names) }

  /** The last port of a name gives its direction. */
  lemma {:induction false} WithPortsAt(pins: map<string, PinDirection>, ports: seq<PortDecl>, i: nat, pin: string)
    requires i < |ports| ==>
      Declares(ports[i], pin) && forall j :: i < j < |ports| ==> !Declares(ports[j], pin)
    ensures var r := WithPorts(pins, ports);
      && (i < |ports| ==> pin in r && r[pin] == ports[i].direction)
      && (pin in r <==> pin in pins || exists j :: 0 <= j < |ports| && Declares(ports[j], pin))
      && ((forall j :: 0 <= j < |ports| ==> !Declares(ports[j], pin)) && pin in pins ==> r[pin] == pins[pin])
    decreases |ports|
  {
    hide Texts;
    if ports != [] {
      var pins', rest := WithPins(pins, Texts(ports[0].names), ports[0].direction), ports[1..];
      WithPinsAt(pins, Texts(ports[0].names), ports[0].direction, pin);
      WithPortsAt(pins', rest, if i > 0 then i - 1 else |rest|, pin);
      assert forall j :: 1 <= j < |ports| ==> ports[j] == rest[j - 1];
      assert forall j :: 0 <= j < |rest| ==> rest[j] == ports[j + 1];
    }
  }

  /** The device a description is of. */
  function Described(x: Description): BsdlDevice
    requires Describable(x)
  {
    BsdlDevice(x.name, x.irLength, WithOpcodes(map[], x.opcodes), x.length,
               WithCells(seq(x.length, _ => EMPTY_CELL), x.cells), WithPorts(map[], x.ports), x.idcode)
  }

  lemma {:induction false} PortsApply(d: BsdlDevice, ports: seq<PortDecl>)
    requires d.WellFormed()
    ensures ApplyAll(d, PinItems(ports)) == Some(d.(pins := WithPorts(d.pins, ports)))
    decreases |ports|
  {
    hide BsdlDevice.WellFormed, WithPins, Texts;
    if ports != [] {
      var items := PinItems(ports);
      assert items[1..] == PinItems(ports[1..]);
      PinsKeepForm(d, Texts(ports[0].names), ports[0].direction);
      PortsApply(d.(pins := WithPins(d.pins, Texts(ports[0].names), ports[0].direction)), ports[1..]);
    }
  }

  lemma PinsKeepForm(d: BsdlDevice, names: seq<string>, direction: PinDirection)
    requires d.WellFormed()
    ensures d.(pins := WithPins(d.pins, names, direction)).WellFormed()
  {
  }

  lemma NamedThen(d: BsdlDevice, name: string, items: seq<Item>)
    requires d.WellFormed()
    ensures d.(entityName := name).WellFormed()
    ensures ApplyAll(d, [Name(name)] + items) == ApplyAll(d.(entityName := name), items)
  {
    assert ([Name(name)] + items)[1..] == items;
  }

  lemma ItemThen(d: BsdlDevice, item: Item, items: seq<Item>, e: BsdlDevice)
    requires d.WellFormed() && Apply(d, item) == Some(e)
    ensures e.WellFormed() && ApplyAll(d, [item] + items) == ApplyAll(e, items)
  {
    hide Apply;
    assert ([item] + items)[1..] == items;
  }

  /** What the attributes make of a device without slots. */
  lemma AttributesApply(d: BsdlDevice, x: Description)
    requires Describable(x) && d.WellFormed() && d.boundaryCells == []
    ensures ApplyAll(d, [Length(Decimal(x.irLength)), Opcodes(OpcodeText(x.opcodes, x.between)),
      Code(Binary(x.idcode, 32)), Slots(Decimal(x.length)), Cells(RegisterText(x.cells, x.between))])
      == Some(d.(instructionLength := x.irLength, instructions := WithOpcodes(d.instructions, x.opcodes),
                 idcode := x.idcode, boundaryLength := x.length,
                 boundaryCells := WithCells(seq(x.length, _ => EMPTY_CELL), x.cells)))
  {
    hide ApplyAll, Apply, Decimal, OpcodeText, RegisterText, Binary, WithOpcodes, WithCells, BsdlDevice.WellFormed;
    var ir, table := Length(Decimal(x.irLength)), Opcodes(OpcodeText(x.opcodes, x.between));
    var code, slots := Code(Binary(x.idcode, 32)), Slots(Decimal(x.length));
    var cells := Cells(RegisterText(x.cells, x.between));
    var d1 := d.(instructionLength := x.irLength);
    var d2 := d1.(instructions := WithOpcodes(d.instructions, x.opcodes));
    var d3 := d2.(idcode := x.idcode);
    var d4 := d3.(boundaryLength := x.length, boundaryCells := seq(x.length, _ => EMPTY_CELL));
    var d5 := d4.(boundaryCells := WithCells(d4.boundaryCells, x.cells));
    LengthApplies(d, x.irLength);
    ItemThen(d, ir, [table, code, slots, cells], d1);
    OpcodesApply(d1, x.opcodes, x.between);
    ItemThen(d1, table, [code, slots, cells], d2);
    CodeApplies(d2, x.idcode);
    ItemThen(d2, code, [slots, cells], d3);
    SlotsApply(d3, x.length);
    ItemThen(d3, slots, [cells], d4);
    CellsApply(d4, x);
    ApplyOne(d4, cells);
    assert [ir] + [table, code, slots, cells] == [ir, table, code, slots, cells];
    assert [table] + [code, slots, cells] == [table, code, slots, cells];
    assert [code] + [slots, cells] == [code, slots, cells] && [slots] + [cells] == [slots, cells];
  }

  lemma LengthApplies(d: BsdlDevice, n: nat)
    requires d.WellFormed() && n < 0x8000_0000
    ensures Apply(d, Length(Decimal(n))) == Some(d.(instructionLength := n))
  {
    hide Decimal, Stoi, DigitsValue, BsdlDevice.WellFormed;
    DecimalReads(n);
    NumberApplies(d, Decimal(n));
  }

  lemma OpcodesApply(d: BsdlDevice, table: seq<Opcode>, between: string)
    requires d.WellFormed() && Separates(between) && forall i :: 0 <= i < |table| ==> IsOpcode(table[i])
    ensures Apply(d, Opcodes(OpcodeText(table, between)))
      == Some(d.(instructions := WithOpcodes(d.instructions, table)))
  {
    hide OpcodesInto, OpcodeText, WithOpcodes, IsOpcode;
    var s := OpcodeText(table, between);
    assert s[0..] == s && "" + s == s;
    OpcodesRead(d.instructions, s, 0, "", table, between);
  }

  lemma CodeApplies(d: BsdlDevice, code: nat)
    requires d.WellFormed() && code < 0x1_0000_0000
    ensures Apply(d, Code(Binary(code, 32))) == Some(d.(idcode := code))
  {
    hide Binary, BinaryDigits, BinaryValue, Pow2;
    KnownPowers();
    BinaryReads(code, 32);
  }

  lemma SlotsApply(d: BsdlDevice, n: nat)
    requires d.WellFormed() && d.boundaryCells == [] && n <= 65536
    ensures Apply(d, Slots(Decimal(n)))
      == Some(d.(boundaryLength := n, boundaryCells := seq(n, _ => EMPTY_CELL)))
  {
    hide Decimal, Stoi, DigitsValue;
    DecimalReads(n);
    NumberApplies(d, Decimal(n));
    assert d.boundaryLength == 0;
    assert [] + seq(n, _ => EMPTY_CELL) == seq(n, _ => EMPTY_CELL);
    assert n == 0 ==> seq(n, _ => EMPTY_CELL) == [];
  }

  lemma CellsApply(d: BsdlDevice, x: Description)
    requires Describable(x) && d.WellFormed() && |d.boundaryCells| == x.length
    ensures Apply(d, Cells(RegisterText(x.cells, x.between)))
      == Some(d.(boundaryCells := WithCells(d.boundaryCells, x.cells)))
  {
    hide CellsInto, RegisterText, WithCells, BsdlDevice.WellFormed, IsCell, IsOpcode;
    var s := RegisterText(x.cells, x.between);
    assert s[0..] == s && "" + s == s;
    CellsRead(d, s, 0, "", x.cells, x.between);
  }

  ghost predicate LastOpcode(table: seq<Opcode>, i: int) {
    0 <= i < |table| && forall j :: i < j < |table| ==> table[j].name != table[i].name
  }

  ghost predicate LastCell(cells: seq<BoundaryCell>, i: int) {
    0 <= i < |cells| && forall j :: i < j < |cells| ==> cells[j].position != cells[i].position
  }

  ghost predicate LastPort(ports: seq<PortDecl>, i: int, pin: string) {
    0 <= i < |ports| && Declares(ports[i], pin) && forall j :: i < j < |ports| ==> !Declares(ports[j], pin)
  }

  ghost predicate Tabulates(m: map<string, nat>, table: seq<Opcode>) {
    && (forall name :: name in m <==> exists j :: 0 <= j < |table| && table[j].name == name)
    && (forall i :: LastOpcode(table, i) ==> table[i].name in m && m[table[i].name] == table[i].code)
  }

  ghost predicate Fills(slots: seq<BoundaryCell>, cells: seq<BoundaryCell>, length: nat) {
    && |slots| == length
    && (forall i :: LastCell(cells, i) ==> 0 <= cells[i].position < length && slots[cells[i].position] == cells[i])
    && (forall place :: 0 <= place < length && (forall j :: 0 <= j < |cells| ==> cells[j].position != place) ==>
      slots[place] == BoundaryCell(-1, "", Input, -1, -1, -1))
  }

  ghost predicate Directs(pins: map<string, PinDirection>, ports: seq<PortDecl>) {
    && (forall pin :: pin in pins <==> exists j :: 0 <= j < |ports| && Declares(ports[j], pin))
    && (forall i, pin :: LastPort(ports, i, pin) ==> pin in pins && pins[pin] == ports[i].direction)
  }

  /** A device is what its description says: of entries with one name, one place or one pin the last counts. */
  ghost predicate Describes(d: BsdlDevice, x: Description) {
    && d.entityName == x.name && d.instructionLength == x.irLength && d.idcode == x.idcode
    && d.boundaryLength == x.length && Fills(d.boundaryCells, x.cells, x.length)
    && Tabulates(d.instructions, x.opcodes) && Directs(d.pins, x.ports)
  }

  /** What a text does not declare is empty. */
  lemma UndeclaredIsEmpty(source: string)
    requires Items(Tokens(source, 0)) == []
    ensures DeviceOf(source) == Some(BsdlDevice("", 0, map[], 0, [], map[], 0))
  {
    hide Items, Tokens;
  }

  /** Every description, however it is spelled, reads back as its device. */
  lemma DescriptionReadsBack(x: Description, pieces: seq<Piece>)
    requires Describable(x) && TokensOf(pieces) == DescriptionTokens(x)
    requires forall i :: 0 <= i < |pieces| ==> Written(pieces[i])
    ensures DeviceOf(Source(pieces)).Some? && Describes(DeviceOf(Source(pieces)).value, x)
  {
    hide Items, Tokens, Describes, DeviceOf;
    WrittenIsDescribed(x, pieces);
    DescribedDescribes(x);
  }

  lemma DescribedDescribes(x: Description)
    requires Describable(x)
    ensures Describes(Described(x), x)
  {
    OpcodesTabulate(x.opcodes);
    CellsFill(x.cells, x.length);
    PortsDirect(x.ports);
  }

  lemma OpcodesTabulate(table: seq<Opcode>)
    ensures Tabulates(WithOpcodes(map[], table), table)
  {
    hide WithOpcodes;
    forall name ensures name in WithOpcodes(map[], table) <==> exists j :: 0 <= j < |table| && table[j].name == name {
      WithOpcodesAt(map[], table, |table|, name);
    }
    forall i | LastOpcode(table, i)
      ensures table[i].name in WithOpcodes(map[], table) && WithOpcodes(map[], table)[table[i].name] == table[i].code
    {
      WithOpcodesAt(map[], table, i, "");
    }
  }

  lemma CellsFill(cells: seq<BoundaryCell>, length: nat)
    requires forall i :: 0 <= i < |cells| ==> 0 <= cells[i].position < length
    ensures Fills(WithCells(seq(length, _ => EMPTY_CELL), cells), cells, length)
  {
    hide WithCells;
    var empty := seq(length, _ => EMPTY_CELL);
    forall i | LastCell(cells, i) ensures WithCells(empty, cells)[cells[i].position] == cells[i] {
      WithCellsAt(empty, cells, i, 0);
    }
    forall place | 0 <= place < length && (forall j :: 0 <= j < |cells| ==> cells[j].position != place)
      ensures WithCells(empty, cells)[place] == EMPTY_CELL
    {
      WithCellsAt(empty, cells, |cells|, place);
    }
  }

  lemma PortsDirect(ports: seq<PortDecl>)
    ensures Directs(WithPorts(map[], ports), ports)
  {
    hide WithPorts, Declares;
    var pins := WithPorts(map[], ports);
    forall pin ensures pin in pins <==> exists j :: 0 <= j < |ports| && Declares(ports[j], pin) {
      WithPortsAt(map[], ports, |ports|, pin);
    }
    forall i, pin | LastPort(ports, i, pin) ensures pin in pins && pins[pin] == ports[i].direction {
      WithPortsAt(map[], ports, i, pin);
    }
  }

  lemma WrittenIsDescribed(x: Description, pieces: seq<Piece>)
    requires Describable(x) && TokensOf(pieces) == DescriptionTokens(x)
    requires forall i :: 0 <= i < |pieces| ==> Written(pieces[i])
    ensures DeviceOf(Source(pieces)) == Some(Described(x))
  {
    hide Items, Tokens, DescriptionTokens, DescriptionItems, ApplyAll, Described, Describable, Written, Source,
         TokensOf;
    WrittenTokensRead("", pieces);
    assert "" + Source(pieces) == Source(pieces);
    DescriptionDeclares(x);
    ItemsDescribe(x);
  }

  lemma ItemsDescribe(x: Description)
    requires Describable(x)
    ensures EMPTY_DEVICE.WellFormed() && ApplyAll(EMPTY_DEVICE, DescriptionItems(x)) == Some(Described(x))
  {
    hide PinItems, ApplyAll, Decimal, Binary, OpcodeText, RegisterText, WithPorts, WithCells, WithOpcodes,
         BsdlDevice.WellFormed;
    EmptyHasForm();
    var d := EMPTY_DEVICE.(entityName := x.name);
    var e := d.(pins := WithPorts(map[], x.ports));
    var rest := [Length(Decimal(x.irLength)), Opcodes(OpcodeText(x.opcodes, x.between)), Code(Binary(x.idcode, 32)),
      Slots(Decimal(x.length)), Cells(RegisterText(x.cells, x.between))];
    NamedThen(EMPTY_DEVICE, x.name, PinItems(x.ports) + rest);
    PortsApply(d, x.ports);
    ApplyAppend(d, PinItems(x.ports), rest);
    AttributesApply(e, x);
  }

  lemma EmptyHasForm()
    ensures EMPTY_DEVICE.WellFormed()
  {
  }
}
