/** The BSDL parser: fills a device description from any text, and keeps it well formed. */
module BsdlParser {
  import opened Bytes
  import opened Bsdl
  import opened BsdlLexer

  const MAX_BSR_BITS := 65536

  const INT_MAX := 0x7FFF_FFFF

  // ---------------------------------------------------------------- numbers

  function DigitsValue(s: string): nat
    requires forall i :: 0 <= i < |s| ==> IsDigit(s[i])
  {
    if s == "" then 0
    else
      var last := s[|s| - 1];
      assert IsDigit(last);
      10 * DigitsValue(s[..|s| - 1]) + (last as int - '0' as int)
  }

  function DigitsAt(s: string, pos: nat): (d: string)
    requires pos <= |s|
    ensures forall i :: 0 <= i < |d| ==> IsDigit(d[i])
    decreases |s| - pos
  {
    if pos < |s| && IsDigit(s[pos]) then [s[pos]] + DigitsAt(s, pos + 1) else ""
  }

  /** A sign and the digits after it, if there are any and the number fits an int. */
  function Stoi(s: string): (r: Option<int>)
    ensures r.Some? ==> -INT_MAX - 1 <= r.value <= INT_MAX
  {
    var signed := s != "" && (s[0] == '-' || s[0] == '+');
    var digits := DigitsAt(s, if signed then 1 else 0);
    var v := if signed && s[0] == '-' then -(DigitsValue(digits) as int) else DigitsValue(digits);
    if digits == "" || !(-INT_MAX - 1 <= v <= INT_MAX) then None else Some(v)
  }

  lemma {:induction false} DigitsAtAll(s: string, pos: nat)
    requires pos <= |s| && forall i :: 0 <= i < |s| ==> IsDigit(s[i])
    ensures DigitsAt(s, pos) == s[pos..]
    decreases |s| - pos
  {
    if pos < |s| { DigitsAtAll(s, pos + 1); }
  }

  /** A number of digits only is read back unless it is too large. */
  lemma StoiOfDigits(s: string)
    requires IsNumber(s)
    ensures Stoi(s) == if DigitsValue(s) <= 0x7FFF_FFFF then Some(DigitsValue(s)) else None
  {
    DigitsAtAll(s, 0);
  }

  /** A sign counts, and negative numbers reach one further. */
  lemma StoiOfSigned(s: string)
    requires IsNumber(s)
    ensures Stoi("+" + s) == if DigitsValue(s) <= 0x7FFF_FFFF then Some(DigitsValue(s)) else None
    ensures Stoi("-" + s) == if DigitsValue(s) <= 0x8000_0000 then Some(-(DigitsValue(s) as int)) else None
  {
    SignThenDigits('+', s);
    SignThenDigits('-', s);
  }

  lemma SignThenDigits(sign: char, s: string)
    requires IsNumber(s)
    ensures DigitsAt([sign] + s, 1) == s
  {
    DigitsBehind([sign], s, 0);
  }

  lemma {:induction false} DigitsBehind(front: string, s: string, k: nat)
    requires k <= |s| && IsNumber(s)
    ensures DigitsAt(front + s, |front| + k) == s[k..]
    decreases |s| - k
  {
    if k < |s| { DigitsBehind(front, s, k + 1); }
  }

  /** A text in which no digit comes first, a sign aside, is no number. */
  lemma NoDigitNoNumber(s: string)
    requires s == "" || !('0' <= s[0] <= '9')
    requires |s| > 1 && s[0] in "+-" ==> !('0' <= s[1] <= '9')
    ensures Stoi(s) == None
  {
  }

  ghost predicate TooLarge(s: string) {
    IsNumber(s) && DigitsValue(s) > 0x7FFF_FFFF
  }

  // ------------------------------------------------------------ binary codes

  /** A binary code, most significant digit first. */
  function BinaryValue(s: string): (v: nat)
    ensures v < Pow2(|s|)
  {
    if s == "" then 0 else 2 * BinaryValue(s[..|s| - 1]) + if s[|s| - 1] == '1' then 1 else 0
  }

  /** The value adds up the weights of the ones. */
  method OpcodeOf(binary: string) returns (opcode: nat)
    ensures opcode == BinaryValue(binary)
  {
    opcode := 0;
    for i := 0 to |binary|
      invariant opcode == BinaryValue(binary[..i]) * Pow2(|binary| - i)
    {
      assert binary[..i + 1][..i] == binary[..i];
      if binary[i] == '1' { opcode := opcode + Pow2(|binary| - 1 - i); }
      Doubled(BinaryValue(binary[..i]), if binary[i] == '1' then 1 else 0, Pow2(|binary| - 1 - i));
    }
    assert binary[..|binary|] == binary;
  }

  lemma Doubled(v: nat, b: nat, w: nat)
    ensures (2 * v + b) * w == v * (2 * w) + b * w
  {
  }

  // ------------------------------------------------------ scanning a string

  /** The first place from pos on where a stretch of such characters ends. */
  function RunEnd(s: string, pos: nat, more: char -> bool): (e: nat)
    requires pos <= |s|
    ensures pos <= e <= |s| && (e < |s| ==> !more(s[e])) && forall i :: pos <= i < e ==> more(s[i])
    decreases |s| - pos
  {
    if pos < |s| && more(s[pos]) then RunEnd(s, pos + 1, more) else pos
  }

  predicate IsSeparator(c: char) { c in " \t\n\r," }

  predicate NotOpen(c: char) { c != '(' }

  predicate NotClose(c: char) { c != ')' }

  predicate InName(c: char) { c !in " \t(" }

  predicate InField(c: char) { c != ',' && c != ')' }

  method FindEnd(s: string, from: nat, more: char -> bool) returns (pos: nat)
    requires from <= |s|
    ensures pos == RunEnd(s, from, more)
  {
    pos := from;
    while pos < |s| && more(s[pos])
      invariant from <= pos <= |s| && RunEnd(s, pos, more) == RunEnd(s, from, more)
    {
      pos := pos + 1;
    }
  }

  /** A field's text without blanks, in upper case. */
  function Clean(s: string): string {
    if s == "" then "" else Clean(s[..|s| - 1]) + if IsBlank(s[|s| - 1]) then "" else [ToUpper(s[|s| - 1])]
  }

  /** The field from pos on, and the place behind its comma. */
  function FieldAt(s: string, pos: nat): (r: (string, nat))
    requires pos <= |s|
    ensures pos <= r.1 <= |s|
  {
    var e := RunEnd(s, pos, InField);
    (Clean(s[pos..e]), if e < |s| && s[e] == ',' then e + 1 else e)
  }

  /** A field that is not there reads as empty. */
  lemma NoField(s: string, pos: nat)
    requires pos <= |s| && (pos < |s| ==> s[pos] == ')')
    ensures FieldAt(s, pos) == ("", pos)
  {
    assert s[pos..pos] == "";
  }

  function PastClose(s: string, pos: nat): (e: nat)
    requires pos <= |s|
    ensures pos <= e <= |s|
  {
    var e := RunEnd(s, pos, NotClose);
    if e < |s| then e + 1 else e
  }

  function CellOf(position: nat, pinName: string, function_: string, safe: string, disabledBy: string,
                  disableValue: string): (c: BoundaryCell)
    ensures c.position == position
  {
    var given := disabledBy != "" && disabledBy != "X" && Stoi(disabledBy).Some?;
    var control := if given then Stoi(disabledBy).value else -1;
    BoundaryCell(position, pinName, CellFunctionOf(function_), BitOrNone(safe), control, BitOrNone(disableValue))
  }

  /** An entry from behind its opening parenthesis: type, pin, function, safe value, and up to three more fields. */
  function CellAt(s: string, pos: nat, position: nat): (r: (BoundaryCell, nat))
    requires pos <= |s|
    ensures pos <= r.1 <= |s| && r.0.position == position
  {
    var pin := FieldAt(s, FieldAt(s, pos).1);
    var function_ := FieldAt(s, pin.1);
    var safe := FieldAt(s, function_.1);
    var control := FieldAt(s, safe.1);
    var value := FieldAt(s, control.1);
    (CellOf(position, pin.0, function_.0, safe.0, control.0, value.0), PastClose(s, FieldAt(s, value.1).1))
  }

  /** The device after the entries from pos on; None when an entry's number is too large. */
  function CellsInto(d: BsdlDevice, s: string, pos: nat): (r: Option<BsdlDevice>)
    requires d.WellFormed() && pos <= |s|
    ensures r.Some? ==> r.value.WellFormed()
    decreases |s| - pos
  {
    var p := RunEnd(s, pos, IsSeparator);
    var e := RunEnd(s, p, IsDigit);
    if p == |s| then Some(d)
    else if e == p then CellsInto(d, s, p + 1)
    else if Stoi(s[p..e]).None? then None
    else
      var o := RunEnd(s, e, NotOpen);
      if o == |s| then Some(d)
      else
        StoiOfDigits(s[p..e]);
        var r := CellAt(s, o + 1, Stoi(s[p..e]).value);
        StoredKeepsPlaces(d, r.0);
        CellsInto(Stored(d, r.0), s, r.1)
  }

  lemma CellsStep(d: BsdlDevice, s: string, pos: nat)
    requires d.WellFormed() && pos <= |s|
    ensures var p := RunEnd(s, pos, IsSeparator);
      var e := RunEnd(s, p, IsDigit);
      var o := RunEnd(s, e, NotOpen);
      && (p == |s| ==> CellsInto(d, s, pos) == Some(d))
      && (p < |s| && e == p ==> CellsInto(d, s, pos) == CellsInto(d, s, p + 1))
      && (e > p ==> IsNumber(s[p..e]))
      && (e > p && Stoi(s[p..e]).None? ==> CellsInto(d, s, pos) == None)
      && (e > p && Stoi(s[p..e]).Some? && o == |s| ==> CellsInto(d, s, pos) == Some(d))
      && (e > p && Stoi(s[p..e]).Some? ==> Stoi(s[p..e]).value >= 0)
      && (e > p && Stoi(s[p..e]).Some? && o < |s| ==>
        var r := CellAt(s, o + 1, Stoi(s[p..e]).value);
        Stored(d, r.0).WellFormed() && CellsInto(d, s, pos) == CellsInto(Stored(d, r.0), s, r.1))
  {
    hide Stoi, CellAt, Stored, BsdlDevice.WellFormed;
    var p := RunEnd(s, pos, IsSeparator);
    var e := RunEnd(s, p, IsDigit);
    var o := RunEnd(s, e, NotOpen);
    if e > p {
      StoiOfDigits(s[p..e]);
      if Stoi(s[p..e]).Some? && o < |s| { StoredKeepsPlaces(d, CellAt(s, o + 1, Stoi(s[p..e]).value).0); }
    }
  }

  /** The instruction table after the entries from pos on. */
  function OpcodesInto(m: map<string, nat>, s: string, pos: nat): map<string, nat>
    requires pos <= |s|
    decreases |s| - pos
  {
    var (p, e, o) := NameEnd(s, pos);
    if p == |s| || e == p || o == |s| then m
    else
      var c := RunEnd(s, o + 1, NotClose);
      var binary := BinaryDigits(s[o + 1..c]);
      OpcodesInto(if binary == "" then m else m[Upper(s[p..e]) := BinaryValue(binary)], s, if c < |s| then c + 1 else c)
  }

  /** An entry of an opcode string: its name, and the place of its opening parenthesis. */
  function NameEnd(s: string, pos: nat): (r: (nat, nat, nat))
    requires pos <= |s|
    ensures pos <= r.0 <= r.1 <= r.2 <= |s|
  {
    var p := RunEnd(s, pos, IsSeparator);
    var e := RunEnd(s, p, InName);
    (p, e, RunEnd(s, e, NotOpen))
  }

  lemma OpcodesStop(m: map<string, nat>, s: string, pos: nat)
    requires pos <= |s|
    ensures var (p, e, o) := NameEnd(s, pos); p == |s| || e == p || o == |s| ==> OpcodesInto(m, s, pos) == m
  {
    hide BinaryDigits, BinaryValue, Upper, RunEnd;
  }

  lemma OpcodesStep(m: map<string, nat>, s: string, pos: nat)
    requires pos <= |s|
    requires var (p, e, o) := NameEnd(s, pos); p < |s| && e > p && o < |s|
    ensures var (p, e, o) := NameEnd(s, pos);
      var c := RunEnd(s, o + 1, NotClose);
      var binary := BinaryDigits(s[o + 1..c]);
      OpcodesInto(m, s, pos)
        == OpcodesInto(if binary == "" then m else m[Upper(s[p..e]) := BinaryValue(binary)], s,
                       if c < |s| then c + 1 else c)
  {
    hide BinaryDigits, BinaryValue, Upper, RunEnd;
  }

  /** The zeros and ones of a string. */
  function BinaryDigits(s: string): string {
    if s == "" then "" else BinaryDigits(s[..|s| - 1]) + if s[|s| - 1] in "01" then [s[|s| - 1]] else ""
  }

  // ------------------------------------------------ what a written entry says

  predicate IsPlain(s: string) {
    forall i :: 0 <= i < |s| ==> InField(s[i]) && !IsBlank(s[i]) && ToUpper(s[i]) == s[i]
  }

  lemma {:induction false} CleanPlain(s: string)
    requires IsPlain(s)
    ensures Clean(s) == s
  {
    if s != "" { CleanPlain(s[..|s| - 1]); }
  }

  lemma {:induction false} RunEndIs(s: string, pos: nat, e: nat, more: char -> bool)
    requires pos <= e <= |s| && (forall i :: pos <= i < e ==> more(s[i])) && (e < |s| ==> !more(s[e]))
    ensures RunEnd(s, pos, more) == e
    decreases e - pos
  {
    if pos < e { RunEndIs(s, pos + 1, e, more); }
  }

  lemma {:induction false} CleanAppend(a: string, b: string)
    ensures Clean(a + b) == Clean(a) + Clean(b)
  {
    if b == "" {
      assert a + b == a;
    } else {
      assert (a + b)[..|a + b| - 1] == a + b[..|b| - 1];
      CleanAppend(a, b[..|b| - 1]);
    }
  }

  /** Text that can stand in a field. */
  predicate IsField(s: string) {
    forall i :: 0 <= i < |s| ==> s[i] != ',' && s[i] != ')'
  }

  lemma FieldReads(s: string, pos: nat, f: string, e: nat)
    requires IsField(f) && e == pos + |f| < |s| && s[pos..e] == f && s[e] in ",)"
    ensures FieldAt(s, pos) == (Clean(f), if s[e] == ',' then e + 1 else e)
  {
    forall i | pos <= i < e ensures InField(s[i]) { assert s[i] == f[i - pos]; }
    RunEndIs(s, pos, e, InField);
  }

  /** A field, the mark that ends it, and the text behind. */
  function Marked(f: string, mark: char, rest: string): string { f + [mark] + rest }

  function Entry(cellType: string, pin: string, function_: string, safe: string, control: string, value: string,
                 result: string, after: string): string
  {
    Marked(cellType, ',', Marked(pin, ',', Marked(function_, ',', Marked(safe, ',',
      Marked(control, ',', Marked(value, ',', Marked(result, ')', after)))))))
  }

  function ShortEntry(cellType: string, pin: string, function_: string, safe: string, after: string): string {
    Marked(cellType, ',', Marked(pin, ',', Marked(function_, ',', Marked(safe, ')', after))))
  }

  /** The fields every entry has. */
  lemma FourFields(s: string, pos: nat, cellType: string, pin: string, function_: string, safe: string, mark: char,
                   rest: string)
      returns (p2: nat, p3: nat, p4: nat, p5: nat)
    requires IsField(cellType) && IsField(pin) && IsField(function_) && IsField(safe) && mark in ",)" && pos <= |s|
    requires s[pos..]
      == Marked(cellType, ',', Marked(pin, ',', Marked(function_, ',', Marked(safe, mark, rest))))
    ensures p2 <= |s| && p3 <= |s| && p4 <= |s| && p5 <= |s| && FieldAt(s, pos).1 == p2
    ensures FieldAt(s, p2) == (Clean(pin), p3) && FieldAt(s, p3) == (Clean(function_), p4)
    ensures FieldAt(s, p4) == (Clean(safe), p5)
    ensures mark == ',' ==> s[p5..] == rest
    ensures mark == ')' ==> p5 < |s| && s[p5] == ')' && s[p5 + 1..] == rest
  {
    hide FieldAt, Marked, IsField, Clean;
    var t4 := Marked(safe, mark, rest);
    var t3 := Marked(function_, ',', t4);
    p2 := FieldHere(s, pos, cellType, ',', Marked(pin, ',', t3));
    p3 := FieldHere(s, p2, pin, ',', t3);
    p4 := FieldHere(s, p3, function_, ',', t4);
    p5 := FieldHere(s, p4, safe, mark, rest);
  }

  /** A full entry, wherever it stands, reads back as the cell it was written for, whatever blanks and case its
      fields are written in. */
  lemma CellReadsBack(before: string, cellType: string, pin: string, function_: string, safe: string, control: string,
                      value: string, result: string, after: string, position: nat)
    requires IsField(cellType) && IsField(pin) && IsField(function_) && IsField(safe)
    requires IsField(control) && IsField(value) && IsField(result)
    ensures var s := before + Entry(cellType, pin, function_, safe, control, value, result, after);
      var r := CellAt(s, |before|, position);
      && r.0 == CellOf(position, Clean(pin), Clean(function_), Clean(safe), Clean(control), Clean(value))
      && s[r.1..] == after
  {
    hide FieldAt, CellOf, Marked, IsField, RunEnd, Clean;
    var t7 := Marked(result, ')', after);
    var t6 := Marked(value, ',', t7);
    var t5 := Marked(control, ',', t6);
    var s := before + Entry(cellType, pin, function_, safe, control, value, result, after);
    var p2, p3, p4, p5 := FourFields(s, |before|, cellType, pin, function_, safe, ',', t5);
    var p6 := FieldHere(s, p5, control, ',', t6);
    var p7 := FieldHere(s, p6, value, ',', t7);
    var p8 := FieldHere(s, p7, result, ')', after);
    RunEndIs(s, p8, p8, NotClose);
  }

  /** The same for an entry of four fields. */
  lemma ShortCellReadsBack(before: string, cellType: string, pin: string, function_: string, safe: string,
                           after: string, position: nat)
    requires IsField(cellType) && IsField(pin) && IsField(function_) && IsField(safe)
    ensures var s := before + ShortEntry(cellType, pin, function_, safe, after);
      var r := CellAt(s, |before|, position);
      r.0 == CellOf(position, Clean(pin), Clean(function_), Clean(safe), "", "") && s[r.1..] == after
  {
    hide FieldAt, CellOf, Marked, IsField, RunEnd, Clean;
    var s := before + ShortEntry(cellType, pin, function_, safe, after);
    var p2, p3, p4, p5 := FourFields(s, |before|, cellType, pin, function_, safe, ')', after);
    NoField(s, p5);
    RunEndIs(s, p5, p5, NotClose);
  }

  /** A pin's name survives in an entry exactly when it has no comma and no parenthesis in it: the name of an indexed
      port, which the port list keeps whole, is cut. */
  lemma PinReadsBackIff(before: string, cellType: string, pin: string, after: string, position: nat)
    requires IsField(cellType)
    ensures var s := before + Marked(cellType, ',', Marked(pin, ',', after));
      CellAt(s, |before|, position).0.pinName == Clean(pin) <==> IsField(pin)
  {
    hide FieldAt, Marked, IsField, RunEnd, Clean;
    var t2 := Marked(pin, ',', after);
    var s := before + Marked(cellType, ',', t2);
    var p2 := FieldHere(s, |before|, cellType, ',', t2);
    if IsField(pin) {
      var p3 := FieldHere(s, p2, pin, ',', after);
    } else {
      var k := FirstMark(pin);
      var rest := pin[k + 1..] + [','] + after;
      MarkedAt(pin, k, after);
      var p3 := FieldHere(s, p2, pin[..k], pin[k], rest);
      CutIsShorter(pin, k);
    }
  }

  lemma CutIsShorter(pin: string, k: nat)
    requires k < |pin| && pin[k] in ",)"
    ensures |Clean(pin[..k])| < |Clean(pin)|
  {
    hide Clean;
    CleanAppend(pin[..k], pin[k..]);
    CleanAppend([pin[k]], pin[k + 1..]);
    assert pin == pin[..k] + pin[k..] && pin[k..] == [pin[k]] + pin[k + 1..];
    CleanMark(pin[k]);
  }

  lemma MarkedAt(pin: string, k: nat, after: string)
    requires k < |pin|
    ensures Marked(pin, ',', after) == Marked(pin[..k], pin[k], pin[k + 1..] + [','] + after)
  {
    assert pin == pin[..k] + [pin[k]] + pin[k + 1..];
  }

  lemma CleanMark(c: char)
    requires c == ',' || c == ')'
    ensures Clean([c]) == [c]
  {
    assert [c][..0] == "";
  }

  lemma FirstMark(pin: string) returns (k: nat)
    requires !IsField(pin)
    ensures k < |pin| && pin[k] in ",)" && IsField(pin[..k])
  {
    k := RunEnd(pin, 0, InField);
    if k == |pin| { assert IsField(pin); }
  }

  /** When the text from pos on is a field, its end mark and the rest, the field is read. A comma is passed. */
  lemma FieldHere(s: string, pos: nat, f: string, mark: char, rest: string) returns (next: nat)
    requires IsField(f) && mark in ",)" && pos <= |s| && s[pos..] == Marked(f, mark, rest)
    ensures pos <= next <= |s| && FieldAt(s, pos) == (Clean(f), next)
    ensures mark == ',' ==> s[next..] == rest
    ensures mark == ')' ==> next < |s| && s[next] == ')' && s[next + 1..] == rest
  {
    var t := s[pos..];
    assert forall i :: 0 <= i < |t| ==> s[pos + i] == t[i];
    assert s[pos..pos + |f|] == f;
    FieldReads(s, pos, f, pos + |f|);
    assert s[pos + |f| + 1..] == t[|f| + 1..];
    next := if mark == ',' then pos + |f| + 1 else pos + |f|;
  }

  // ------------------------------------------------------- runs of tokens

  /** What follows the next semicolon. */
  function AfterSemicolon(tokens: seq<Token>): (r: seq<Token>)
    ensures |r| <= |tokens|
  {
    if tokens == [] then [] else if tokens[0].kind == Semicolon then tokens[1..] else AfterSemicolon(tokens[1..])
  }

  /** The text of string literals and ampersands at the head of a token list, and what follows them. */
  function Joined(tokens: seq<Token>): (r: (string, seq<Token>))
    ensures |r.1| <= |tokens|
  {
    if tokens == [] || tokens[0].kind !in {StringLiteral, Ampersand} then ("", tokens)
    else
      var rest := Joined(tokens[1..]);
      ((if tokens[0].kind == StringLiteral then tokens[0].value else "") + rest.0, rest.1)
  }

  /** A value has to start with a literal. */
  function Content(tokens: seq<Token>): (r: (string, seq<Token>))
    ensures |r.1| <= |tokens|
  {
    if tokens == [] || tokens[0].kind != StringLiteral then ("", tokens) else Joined(tokens)
  }

  function Before(text: string, rest: (string, seq<Token>)): (string, seq<Token>) { (text + rest.0, rest.1) }

  lemma NothingBefore(rest: (string, seq<Token>))
    ensures Before("", rest) == rest
  {
    assert "" + rest.0 == rest.0;
  }

  lemma BeforeJoin(a: string, b: string, rest: (string, seq<Token>))
    ensures Before(a, Before(b, rest)) == Before(a + b, rest)
  {
    assert a + (b + rest.0) == a + b + rest.0;
  }

  // ------------------------------------------------------------- the parser

  function CellFunctionOf(name: string): CellFunction {
    match name
    case "OUTPUT2" => Output2
    case "OUTPUT3" => Output3
    case "CONTROL" => Control
    case "BIDIR" => Bidir
    case "CLOCK" => ClockIn
    case "INTERNAL" => Internal
    case _ => Input
  }

  function DirectionOf(name: string): PinDirection {
    match name
    case "OUT" => Out
    case "INOUT" => InOut
    case "BUFFER" => Buffer
    case "LINKAGE" => Linkage
    case _ => In
  }

  function Resized(cells: seq<BoundaryCell>, n: nat): (r: seq<BoundaryCell>)
    ensures |r| == n
  {
    if n <= |cells| then cells[..n] else cells + seq(n - |cells|, _ => EMPTY_CELL)
  }

  /** Cutting or padding the slots keeps every cell in its own place. */
  lemma ResizedKeepsPlaces(d: BsdlDevice, n: nat)
    requires d.WellFormed() && n <= MAX_BSR_BITS
    ensures d.(boundaryLength := n, boundaryCells := Resized(d.boundaryCells, n)).WellFormed()
  {
  }

  /** A stated length keeps the cells below it and adds empty slots up to it. */
  lemma WithLengthIs(d: BsdlDevice, n: nat)
    ensures var r := WithLength(d, n);
      && r.boundaryLength == |r.boundaryCells| == n
      && (forall q :: 0 <= q < n ==>
            r.boundaryCells[q] == if q < |d.boundaryCells| then d.boundaryCells[q]
                                  else BoundaryCell(-1, "", Input, -1, -1, -1))
      && r == d.(boundaryLength := n, boundaryCells := r.boundaryCells)
  {
  }

  function WithLength(d: BsdlDevice, n: nat): BsdlDevice {
    d.(boundaryLength := n, boundaryCells := Resized(d.boundaryCells, n))
  }

  lemma PutKeepsPlaces(d: BsdlDevice, cell: BoundaryCell)
    requires d.WellFormed() && 0 <= cell.position < |d.boundaryCells|
    ensures d.(boundaryCells := d.boundaryCells[cell.position := cell]).WellFormed()
  {
  }

  // ------------------------------------------------------- what a text declares

  /** A declaration the parser takes up. */
  datatype Item = Name(name: string) | Pins(names: seq<string>, direction: PinDirection) | Length(digits: string)
    | Opcodes(table: string) | Slots(count: string) | Cells(register: string) | Code(binary: string)

  /** The device after a declaration; None when a number in it that has to fit an int does not. */
  function Apply(d: BsdlDevice, i: Item): (r: Option<BsdlDevice>)
    requires d.WellFormed()
    ensures r.Some? ==> r.value.WellFormed()
  {
    match i
    case Name(name) => Some(d.(entityName := name))
    case Pins(names, direction) => Some(d.(pins := WithPins(d.pins, names, direction)))
    case Length(digits) => if Stoi(digits).None? then None else Some(d.(instructionLength := Stoi(digits).value))
    case Opcodes(table) => Some(d.(instructions := OpcodesInto(d.instructions, table, 0)))
    case Slots(count) =>
      var n := if Stoi(count).Some? then Stoi(count).value else 0;
      if 0 < n <= MAX_BSR_BITS then ResizedKeepsPlaces(d, n); Some(WithLength(d, n)) else Some(d)
    case Cells(register) => CellsInto(d, register, 0)
    case Code(binary) =>
      Some(if |BinaryDigits(binary)| == 32 then d.(idcode := BinaryValue(BinaryDigits(binary))) else d)
  }

  function ApplyAll(d: BsdlDevice, items: seq<Item>): (r: Option<BsdlDevice>)
    requires d.WellFormed()
    ensures r.Some? ==> r.value.WellFormed()
    decreases |items|
  {
    if items == [] then Some(d)
    else match Apply(d, items[0])
      case None => None
      case Some(e) => ApplyAll(e, items[1..])
  }

  /** Every pin named gets the direction. */
  function WithPins(pins: map<string, PinDirection>, names: seq<string>,
                    direction: PinDirection): map<string, PinDirection> {
    if names == [] then pins else WithPins(pins, names[..|names| - 1], direction)[names[|names| - 1] := direction]
  }

  lemma {:induction false} WithPinsAt(pins: map<string, PinDirection>, names: seq<string>, direction: PinDirection,
                                      pin: string)
    ensures var r := WithPins(pins, names, direction);
      && (pin in names ==> pin in r && r[pin] == direction)
      && (pin !in names ==> (pin in r <==> pin in pins) && (pin in r ==> r[pin] == pins[pin]))
  {
    if names != [] {
      var front := names[..|names| - 1];
      assert names == front + [names[|names| - 1]];
      WithPinsAt(pins, front, direction, pin);
    }
  }

  lemma {:induction false} ApplyAppend(d: BsdlDevice, a: seq<Item>, b: seq<Item>)
    requires d.WellFormed()
    ensures ApplyAll(d, a + b) == if ApplyAll(d, a).None? then None else ApplyAll(ApplyAll(d, a).value, b)
    decreases |a|
  {
    hide Apply, BsdlDevice.WellFormed;
    if a == [] {
      assert a + b == b;
    } else {
      assert (a + b)[0] == a[0] && (a + b)[1..] == a[1..] + b;
      if Apply(d, a[0]).Some? { ApplyAppend(Apply(d, a[0]).value, a[1..], b); }
    }
  }

  lemma ApplyOne(d: BsdlDevice, i: Item)
    requires d.WellFormed()
    ensures ApplyAll(d, [i]) == Apply(d, i) && ApplyAll(d, []) == Some(d)
  {
    hide Apply, BsdlDevice.WellFormed;
    if Apply(d, i).Some? { assert [i][1..] == []; }
  }

  /** The text between parentheses, and what follows from the closing one on. */
  function Inside(tokens: seq<Token>): (r: (string, seq<Token>))
    ensures |r.1| <= |tokens|
  {
    if tokens == [] || tokens[0].kind == RightParen then ("", tokens)
    else Before(tokens[0].value, Inside(tokens[1..]))
  }

  /** The index in parentheses at the head of a token list. */
  function IndexAt(tokens: seq<Token>): (r: (string, seq<Token>))
    ensures |r.1| <= |tokens|
  {
    if First(tokens).kind != LeftParen then ("", tokens)
    else
      var inside := Inside(tokens[1..]);
      ("(" + inside.0 + ")", if First(inside.1).kind == RightParen then inside.1[1..] else inside.1)
  }

  /** The names after the first of a comma-separated list. */
  function MoreNames(names: seq<string>, tokens: seq<Token>): (r: (seq<string>, seq<Token>))
    ensures |r.1| <= |tokens|
    decreases |tokens|
  {
    if First(tokens).kind != Comma then (names, tokens)
    else
      var name, rest := First(tokens[1..]), Rest(tokens[1..]);
      if name.kind == Identifier then MoreNames(names + [name.value + IndexAt(rest).0], IndexAt(rest).1)
      else MoreNames(names, rest)
  }

  function NamesAt(first: string, tokens: seq<Token>): (r: (seq<string>, seq<Token>))
    ensures |r.1| <= |tokens|
  {
    MoreNames([first + IndexAt(tokens).0], IndexAt(tokens).1)
  }

  /** Past a type: whether the port list closes with it, and what follows. */
  function TypeEnd(tokens: seq<Token>, depth: nat): (r: (bool, seq<Token>))
    ensures |r.1| <= |tokens|
  {
    if tokens == [] then (false, [])
    else
      match tokens[0].kind
      case LeftParen => TypeEnd(tokens[1..], depth + 1)
      case RightParen => if depth == 0 then (true, tokens[1..]) else TypeEnd(tokens[1..], depth - 1)
      case Semicolon => if depth == 0 then (false, tokens[1..]) else TypeEnd(tokens[1..], depth)
      case _ => TypeEnd(tokens[1..], depth)
  }

  function Prefixed(items: seq<Item>, r: (seq<Item>, seq<Token>)): (seq<Item>, seq<Token>) { (items + r.0, r.1) }

  /** A port behind its first name: what it declares, whether the list closes with it, and what follows. */
  function Port(name: string, tokens: seq<Token>): (r: (seq<Item>, bool, seq<Token>))
    ensures |r.2| <= |tokens|
  {
    var names := NamesAt(name, tokens);
    if First(names.1).kind != Colon then ([], false, Rest(names.1))
    else
      var direction, after := First(Rest(names.1)), TypeEnd(Rest(Rest(names.1)), 0);
      ([Pins(names.0, if direction.kind == Identifier then DirectionOf(direction.value) else In)], after.0, after.1)
  }

  /** The ports declared from inside the parentheses on, and what follows the closing one. */
  function PortList(tokens: seq<Token>): (r: (seq<Item>, seq<Token>))
    ensures |r.1| <= |tokens|
    decreases |tokens|
  {
    if tokens == [] || tokens[0].kind == RightParen then ([], Rest(tokens))
    else if tokens[0].kind != Identifier then PortList(tokens[1..])
    else
      var port := Port(tokens[0].value, tokens[1..]);
      if port.1 then (port.0, port.2) else Prefixed(port.0, PortList(port.2))
  }

  function Ports(tokens: seq<Token>): (r: (seq<Item>, seq<Token>))
    ensures |r.1| <= |tokens|
  {
    if First(tokens).kind != LeftParen then ([], Rest(tokens))
    else
      var list := PortList(tokens[1..]);
      (list.0, if First(list.1).kind == Semicolon then list.1[1..] else list.1)
  }

  function Entity(tokens: seq<Token>): (r: (seq<Item>, seq<Token>))
    ensures |r.1| <= |tokens|
  {
    (if First(tokens).kind == Identifier then [Name(First(tokens).value)] else [], AfterSemicolon(Rest(tokens)))
  }

  /** What follows the next IS; None when there is none. */
  function AfterIs(tokens: seq<Token>): (r: Option<seq<Token>>)
    ensures r.Some? ==> |r.value| <= |tokens|
  {
    if tokens == [] then None
    else if tokens[0].kind == Identifier && tokens[0].value == "IS" then Some(tokens[1..])
    else AfterIs(tokens[1..])
  }

  /** The declaration an attribute's value makes. */
  function ValueOf(attribute: string, tokens: seq<Token>): (r: (seq<Item>, seq<Token>))
    ensures |r.1| <= |tokens|
  {
    var first, content := First(tokens), Content(tokens);
    var number := first.kind == Integer && IsNumber(first.value);
    match attribute
    case "INSTRUCTION_LENGTH" =>
      (if number then [Length(first.value)] else [], AfterSemicolon(Rest(tokens)))
    case "INSTRUCTION_OPCODE" => ([Opcodes(content.0)], AfterSemicolon(content.1))
    case "BOUNDARY_LENGTH" =>
      (if number then [Slots(first.value)] else [], AfterSemicolon(Rest(tokens)))
    case "BOUNDARY_REGISTER" => ([Cells(content.0)], AfterSemicolon(content.1))
    case "IDCODE_REGISTER" => ([Code(content.0)], AfterSemicolon(content.1))
    case _ => ([], AfterSemicolon(tokens))
  }

  function Attribute(tokens: seq<Token>): (r: (seq<Item>, seq<Token>))
    ensures |r.1| <= |tokens|
  {
    var name, next, rest := First(tokens), First(Rest(tokens)), Rest(Rest(tokens));
    if name.kind != Identifier then ([], Rest(tokens))
    else if next.kind != Identifier || next.value != "OF" then ([], AfterSemicolon(rest))
    else match AfterIs(rest)
      case None => ([], [])
      case Some(value) => ValueOf(name.value, value)
  }

  /** Everything a text declares, in order. */
  function Items(tokens: seq<Token>): seq<Item>
    decreases |tokens|
  {
    if tokens == [] then []
    else if tokens[0].kind != Identifier then Items(tokens[1..])
    else match tokens[0].value
      case "ENTITY" => Entity(tokens[1..]).0 + Items(Entity(tokens[1..]).1)
      case "PORT" => Ports(tokens[1..]).0 + Items(Ports(tokens[1..]).1)
      case "ATTRIBUTE" => Attribute(tokens[1..]).0 + Items(Attribute(tokens[1..]).1)
      case _ => Items(tokens[1..])
  }

  /** The device a text describes: its declarations one after another. */
  function DeviceOf(source: string): (r: Option<BsdlDevice>)
    ensures r.Some? ==> r.value.WellFormed()
  {
    ApplyAll(EMPTY_DEVICE, Items(Tokens(source, 0)))
  }

  // ------------------------------------------------------ which texts parse

  /** The numbers at the head of the entries of a register string. */
  function EntryNumbers(s: string, pos: nat): (r: seq<string>)
    requires pos <= |s|
    ensures forall n :: n in r ==> IsNumber(n)
    decreases |s| - pos
  {
    var p := RunEnd(s, pos, IsSeparator);
    var e := RunEnd(s, p, IsDigit);
    if p == |s| then []
    else if e == p then EntryNumbers(s, p + 1)
    else
      var o := RunEnd(s, e, NotOpen);
      [s[p..e]] + if o == |s| then [] else EntryNumbers(s, CellAt(s, o + 1, 0).1)
  }

  /** No number the parser has to convert is too large in this declaration. */
  ghost predicate Fits(i: Item) {
    match i
    case Length(digits) => !TooLarge(digits)
    case Cells(register) => forall n :: n in EntryNumbers(register, 0) ==> !TooLarge(n)
    case _ => true
  }

  lemma CellEndIs(s: string, pos: nat, a: nat, b: nat)
    requires pos <= |s|
    ensures CellAt(s, pos, a).1 == CellAt(s, pos, b).1
  {
    hide FieldAt, CellOf, PastClose;
  }

  lemma {:induction false} CellsFitIff(d: BsdlDevice, s: string, pos: nat)
    requires d.WellFormed() && pos <= |s|
    ensures CellsInto(d, s, pos).Some? <==> forall n :: n in EntryNumbers(s, pos) ==> !TooLarge(n)
    decreases |s| - pos
  {
    hide Stoi, CellAt, Stored, BsdlDevice.WellFormed, RunEnd, DigitsValue;
    CellsStep(d, s, pos);
    var p := RunEnd(s, pos, IsSeparator);
    var e := RunEnd(s, p, IsDigit);
    var o := RunEnd(s, e, NotOpen);
    if p < |s| && e == p {
      CellsFitIff(d, s, p + 1);
    } else if e > p {
      StoiOfDigits(s[p..e]);
      var tail := if o == |s| then [] else EntryNumbers(s, CellAt(s, o + 1, 0).1);
      assert EntryNumbers(s, pos) == [s[p..e]] + tail;
      if TooLarge(s[p..e]) {
        assert s[p..e] in EntryNumbers(s, pos);
      } else if o < |s| {
        var r := CellAt(s, o + 1, Stoi(s[p..e]).value);
        CellEndIs(s, o + 1, Stoi(s[p..e]).value, 0);
        CellsFitIff(Stored(d, r.0), s, r.1);
      }
    }
  }

  lemma ApplyFitsIff(d: BsdlDevice, i: Item)
    requires d.WellFormed() && (i.Length? ==> IsNumber(i.digits))
    ensures Apply(d, i).Some? <==> Fits(i)
  {
    hide Stoi, CellsInto, EntryNumbers, BsdlDevice.WellFormed, DigitsValue, BinaryValue, OpcodesInto, WithPins;
    if i.Length? { StoiOfDigits(i.digits); }
    if i.Cells? { CellsFitIff(d, i.register, 0); }
  }

  /** Lengths are given by tokens that are numbers. */
  ghost predicate Numeric(items: seq<Item>) {
    forall i :: i in items && i.Length? ==> IsNumber(i.digits)
  }

  lemma {:induction false} ApplyAllFitsIff(d: BsdlDevice, items: seq<Item>)
    requires d.WellFormed() && Numeric(items)
    ensures ApplyAll(d, items).Some? <==> forall i :: i in items ==> Fits(i)
    decreases |items|
  {
    hide Apply, Fits, BsdlDevice.WellFormed;
    if items != [] {
      ApplyFitsIff(d, items[0]);
      assert items == [items[0]] + items[1..];
      if Apply(d, items[0]).Some? { ApplyAllFitsIff(Apply(d, items[0]).value, items[1..]); }
    }
  }

  lemma {:induction false} PortsAreNumeric(tokens: seq<Token>)
    ensures forall i :: i in PortList(tokens).0 ==> i.Pins?
    decreases |tokens|
  {
    hide DirectionOf, Port;
    if tokens != [] && tokens[0].kind != RightParen {
      PortsAreNumeric(tokens[1..]);
      if tokens[0].kind == Identifier {
        PortIsPins(tokens[0].value, tokens[1..]);
        PortsAreNumeric(Port(tokens[0].value, tokens[1..]).2);
      }
    }
  }

  lemma PortIsPins(name: string, tokens: seq<Token>)
    ensures var r := Port(name, tokens); |r.2| <= |tokens| && forall i :: i in r.0 ==> i.Pins?
  {
    hide NamesAt, TypeEnd, DirectionOf;
  }

  /** A text parses exactly when every number the parser has to convert, an instruction length or the number of a
      boundary cell, fits an int. */
  lemma ParsesIff(source: string)
    ensures DeviceOf(source).Some? <==> forall i :: i in Items(Tokens(source, 0)) ==> Fits(i)
  {
    hide Items, Tokens, Fits, ApplyAll;
    ItemsAreNumeric(Tokens(source, 0));
    ApplyAllFitsIff(EMPTY_DEVICE, Items(Tokens(source, 0)));
  }

  lemma {:induction false} ItemsAreNumeric(tokens: seq<Token>)
    ensures Numeric(Items(tokens))
    decreases |tokens|
  {
    hide Entity, Ports, Attribute, IsNumber;
    if tokens != [] {
      ItemsAreNumeric(tokens[1..]);
      StatementsAreNumeric(tokens[1..]);
      ItemsAreNumeric(Entity(tokens[1..]).1);
      ItemsAreNumeric(Ports(tokens[1..]).1);
      ItemsAreNumeric(Attribute(tokens[1..]).1);
    }
  }

  lemma StatementsAreNumeric(tokens: seq<Token>)
    ensures Numeric(Entity(tokens).0) && Numeric(Ports(tokens).0) && Numeric(Attribute(tokens).0)
  {
    hide IsNumber, PortList, AfterSemicolon, Content;
    PortsAreNumeric(Rest(tokens));
  }

  // ------------------------------------------------------------ the methods

  class BsdlParser {
    var dev: BsdlDevice

    constructor ()
      ensures dev == EMPTY_DEVICE
    {
      dev := EMPTY_DEVICE;
    }

    /** Parses any text to the end: the result is what its declarations make of an empty device. */
    method Parse(source: string) returns (r: Option<BsdlDevice>)
      modifies this
      ensures r == DeviceOf(source)
    {
      hide Tokens, Items, ApplyAll, Entity, Ports, Attribute, BsdlDevice.WellFormed;
      dev := EMPTY_DEVICE;
      EmptyIsWellFormed();
      var lexer := new Lexer(source);
      while true
        invariant lexer.Valid() && dev.WellFormed()
        invariant ApplyAll(dev, Items(lexer.Remaining())) == DeviceOf(source)
        modifies this, lexer
        decreases |lexer.Remaining()|
      {
        ghost var tokens := lexer.Remaining();
        ItemsStep(dev, tokens);
        var tok := lexer.NextToken();
        if tok.kind == EndOfFile { break; }
        if tok.kind == Identifier {
          if tok.value == "ENTITY" {
            ParseEntity(lexer);
          } else if tok.value == "PORT" {
            ParsePorts(lexer);
          } else if tok.value == "ATTRIBUTE" {
            var ok := ParseAttribute(lexer);
            if !ok { return None; }
          }
        }
      }
      r := Some(dev);
    }

    lemma EmptyIsWellFormed()
      ensures EMPTY_DEVICE.WellFormed()
    {
    }

    method SkipToSemicolon(lexer: Lexer)
      requires lexer.Valid()
      modifies lexer
      ensures lexer.Valid() && lexer.Remaining() == AfterSemicolon(old(lexer.Remaining()))
    {
      while true
        invariant lexer.Valid() && AfterSemicolon(lexer.Remaining()) == AfterSemicolon(old(lexer.Remaining()))
        decreases |lexer.Remaining()|
      {
        var tok := lexer.NextToken();
        if tok.kind == Semicolon || tok.kind == EndOfFile { break; }
      }
    }

    /** String literals joined by ampersands; the token after them stays. */
    method ReadConcatenatedString(lexer: Lexer) returns (result: string)
      requires lexer.Valid()
      modifies lexer
      ensures lexer.Valid() && (result, lexer.Remaining()) == Content(old(lexer.Remaining()))
    {
      hide Tokens;
      result := "";
      var tok := lexer.PeekToken();
      if tok.kind == StringLiteral {
        NothingBefore(Joined(lexer.Remaining()));
        while true
          invariant lexer.Valid() && Joined(old(lexer.Remaining())) == Before(result, Joined(lexer.Remaining()))
          decreases |lexer.Remaining()|
        {
          tok := lexer.PeekToken();
          ghost var tokens := lexer.Remaining();
          if tok.kind == StringLiteral {
            var literal := lexer.NextToken();
            BeforeJoin(result, tok.value, Joined(tokens[1..]));
            result := result + tok.value;
          } else if tok.kind == Ampersand {
            var joint := lexer.NextToken();
            NothingBefore(Joined(tokens[1..]));
          } else {
            assert result + "" == result;
            break;
          }
        }
      }
    }

    method ParseEntity(lexer: Lexer)
      requires lexer.Valid() && dev.WellFormed()
      modifies this, lexer
      ensures lexer.Valid() && dev.WellFormed() && lexer.Remaining() == Entity(old(lexer.Remaining())).1
      ensures ApplyAll(old(dev), Entity(old(lexer.Remaining())).0) == Some(dev)
    {
      hide Tokens;
      var name := lexer.NextToken();
      if name.kind == Identifier { dev := dev.(entityName := name.value); }
      if name.kind == Identifier { ApplyOne(old(dev), Name(name.value)); }
      SkipToSemicolon(lexer);
    }

    /** An index in parentheses after a name, as written, or nothing. */
    method ReadIndex(lexer: Lexer) returns (index: string)
      requires lexer.Valid()
      modifies lexer
      ensures lexer.Valid() && (index, lexer.Remaining()) == IndexAt(old(lexer.Remaining()))
    {
      hide Tokens;
      index := "";
      var next := lexer.PeekToken();
      if next.kind != LeftParen { return; }
      var tok := lexer.NextToken();
      ghost var start := lexer.Remaining();
      NothingBefore(Inside(start));
      next := lexer.PeekToken();
      while next.kind != RightParen && next.kind != EndOfFile
        invariant lexer.Valid() && next == First(lexer.Remaining())
        invariant Before(index, Inside(lexer.Remaining())) == Inside(start)
        decreases |lexer.Remaining()|
      {
        ghost var tokens := lexer.Remaining();
        tok := lexer.NextToken();
        BeforeJoin(index, tok.value, Inside(tokens[1..]));
        index := index + tok.value;
        next := lexer.PeekToken();
      }
      assert index + "" == index;
      if next.kind == RightParen { tok := lexer.NextToken(); }
      index := "(" + index + ")";
    }

    method AddPins(names: seq<string>, direction: PinDirection)
      modifies this
      ensures dev == old(dev).(pins := WithPins(old(dev).pins, names, direction))
    {
      for i := 0 to |names|
        invariant dev == old(dev).(pins := WithPins(old(dev).pins, names[..i], direction))
      {
        assert names[..i + 1][..i] == names[..i];
        dev := dev.(pins := dev.pins[names[i] := direction]);
      }
      assert names[..|names|] == names;
    }

    method ParsePorts(lexer: Lexer)
      requires lexer.Valid() && dev.WellFormed()
      modifies this, lexer
      ensures lexer.Valid() && dev.WellFormed() && lexer.Remaining() == Ports(old(lexer.Remaining())).1
      ensures ApplyAll(old(dev), Ports(old(lexer.Remaining())).0) == Some(dev)
    {
      hide Tokens, PortList, ApplyAll;
      var tok := lexer.NextToken();
      ApplyOne(dev, Name(""));
      if tok.kind != LeftParen { return; }
      ParsePortList(lexer);
      var next := lexer.PeekToken();
      if next.kind == Semicolon { tok := lexer.NextToken(); }
    }

    method ParsePortList(lexer: Lexer)
      requires lexer.Valid() && dev.WellFormed()
      modifies this, lexer
      ensures lexer.Valid() && dev.WellFormed() && lexer.Remaining() == PortList(old(lexer.Remaining())).1
      ensures ApplyAll(old(dev), PortList(old(lexer.Remaining())).0) == Some(dev)
    {
      hide Tokens, ApplyAll, Port, PortList, Prefixed, BsdlDevice.WellFormed;
      ghost var start, done := lexer.Remaining(), [];
      ApplyOne(dev, Name(""));
      PrefixNothing(PortList(start));
      while true
        invariant lexer.Valid() && dev.WellFormed()
        invariant Prefixed(done, PortList(lexer.Remaining())) == PortList(start)
        invariant ApplyAll(old(dev), done) == Some(dev)
        decreases |lexer.Remaining()|
      {
        ghost var tokens := lexer.Remaining();
        PortsStep(done, tokens);
        var tok := lexer.NextToken();
        if tok.kind == RightParen || tok.kind == EndOfFile { break; }
        if tok.kind == Identifier {
          ghost var was, port := dev, Port(tok.value, lexer.Remaining());
          var closed := ParsePort(lexer, tok.value);
          ApplyAppend(old(dev), done, port.0);
          done := done + port.0;
          if closed { break; }
        }
      }
    }

    /** One port, from behind its first name: its names, its direction, and past its type. */
    method ParsePort(lexer: Lexer, name: string) returns (closed: bool)
      requires lexer.Valid() && dev.WellFormed()
      modifies this, lexer
      ensures lexer.Valid() && dev.WellFormed()
      ensures var port := Port(name, old(lexer.Remaining()));
        lexer.Remaining() == port.2 && closed == port.1 && ApplyAll(old(dev), port.0) == Some(dev)
    {
      hide Tokens, DirectionOf, ApplyAll, NamesAt, TypeEnd, WithPins;
      ApplyOne(dev, Name(""));
      var names := ReadNames(lexer, name);
      var tok := lexer.NextToken();
      if tok.kind != Colon { return false; }
      tok := lexer.NextToken();
      var direction := if tok.kind == Identifier then DirectionOf(tok.value) else In;
      ApplyOne(dev, Pins(names, direction));
      AddPins(names, direction);
      closed := SkipType(lexer);
    }

    /** A list of names separated by commas, each with its index. */
    method ReadNames(lexer: Lexer, first: string) returns (names: seq<string>)
      requires lexer.Valid()
      modifies lexer
      ensures lexer.Valid() && (names, lexer.Remaining()) == NamesAt(first, old(lexer.Remaining()))
    {
      hide Tokens, IndexAt;
      var index := ReadIndex(lexer);
      names := [first + index];
      var next := lexer.PeekToken();
      while next.kind == Comma
        invariant lexer.Valid() && next == First(lexer.Remaining())
        invariant MoreNames(names, lexer.Remaining()) == NamesAt(first, old(lexer.Remaining()))
        decreases |lexer.Remaining()|
      {
        var tok := lexer.NextToken();
        tok := lexer.NextToken();
        if tok.kind == Identifier {
          index := ReadIndex(lexer);
          names := names + [tok.value + index];
        }
        next := lexer.PeekToken();
      }
    }

    /** Past a type, to its semicolon or to the parenthesis that closes the port list. */
    method SkipType(lexer: Lexer) returns (closed: bool)
      requires lexer.Valid()
      modifies lexer
      ensures lexer.Valid() && (closed, lexer.Remaining()) == TypeEnd(old(lexer.Remaining()), 0)
    {
      hide Tokens;
      var depth := 0;
      closed := false;
      while true
        invariant lexer.Valid() && depth >= 0 && !closed
        invariant TypeEnd(lexer.Remaining(), depth) == TypeEnd(old(lexer.Remaining()), 0)
        decreases |lexer.Remaining()|
      {
        var tok := lexer.NextToken();
        if tok.kind == EndOfFile { break; }
        if tok.kind == LeftParen {
          depth := depth + 1;
        } else if tok.kind == RightParen {
          if depth == 0 { return true; }
          depth := depth - 1;
        } else if tok.kind == Semicolon && depth == 0 {
          break;
        }
      }
    }

    method ParseAttribute(lexer: Lexer) returns (ok: bool)
      requires lexer.Valid() && dev.WellFormed()
      modifies this, lexer
      ensures lexer.Valid() && dev.WellFormed()
      ensures ok <==> ApplyAll(old(dev), Attribute(old(lexer.Remaining())).0).Some?
      ensures ok ==> lexer.Remaining() == Attribute(old(lexer.Remaining())).1
      ensures ok ==> ApplyAll(old(dev), Attribute(old(lexer.Remaining())).0) == Some(dev)
    {
      hide Tokens, ApplyAll, ValueOf, BsdlDevice.WellFormed, AfterSemicolon;
      ok := true;
      ApplyOne(dev, Name(""));
      var attribute := lexer.NextToken();
      if attribute.kind != Identifier { return; }
      var next := lexer.NextToken();
      if next.kind == Identifier && next.value == "OF" {
        ghost var start := lexer.Remaining();
        while true
          invariant lexer.Valid() && AfterIs(lexer.Remaining()) == AfterIs(start)
          modifies lexer
          decreases |lexer.Remaining()|
        {
          var t := lexer.NextToken();
          if t.kind == EndOfFile { return; }
          if t.kind == Identifier && t.value == "IS" { break; }
        }
        ok := ParseValue(lexer, attribute.value);
      } else {
        SkipToSemicolon(lexer);
      }
    }

    /** What an attribute's name makes of its value. */
    method ParseValue(lexer: Lexer, name: string) returns (ok: bool)
      requires lexer.Valid() && dev.WellFormed()
      modifies this, lexer
      ensures lexer.Valid() && dev.WellFormed()
      ensures ok <==> ApplyAll(old(dev), ValueOf(name, old(lexer.Remaining())).0).Some?
      ensures ok ==> lexer.Remaining() == ValueOf(name, old(lexer.Remaining())).1
      ensures ok ==> ApplyAll(old(dev), ValueOf(name, old(lexer.Remaining())).0) == Some(dev)
    {
      hide Tokens, ApplyAll, AfterSemicolon, Content, CellsInto, OpcodesInto, BinaryDigits, BinaryValue, Stoi,
           IsNumber, DigitsValue, WithLength;
      ok := true;
      ghost var items := ValueOf(name, lexer.Remaining()).0;
      ApplyOne(dev, if items != [] then items[0] else Name(""));
      if First(lexer.Remaining()).kind == Integer { NumberApplies(dev, First(lexer.Remaining()).value); }
      if name == "INSTRUCTION_LENGTH" {
        ok := ParseInstructionLength(lexer);
      } else if name == "INSTRUCTION_OPCODE" {
        ParseInstructionOpcode(lexer);
      } else if name == "BOUNDARY_LENGTH" {
        ParseBoundaryLength(lexer);
      } else if name == "BOUNDARY_REGISTER" {
        ok := ParseBoundaryRegister(lexer);
      } else if name == "IDCODE_REGISTER" {
        ParseIdcodeRegister(lexer);
      } else {
        SkipToSemicolon(lexer);
      }
    }

    method ParseInstructionLength(lexer: Lexer) returns (ok: bool)
      requires lexer.Valid()
      modifies this, lexer
      ensures lexer.Valid()
      ensures var tok := First(old(lexer.Remaining()));
        && (tok.kind == Integer ==> IsNumber(tok.value)) && (ok <==> !(tok.kind == Integer && TooLarge(tok.value)))
        && (ok ==> lexer.Remaining() == AfterSemicolon(Rest(old(lexer.Remaining())))) && (!ok ==> dev == old(dev))
        && (ok ==> dev == if tok.kind == Integer then old(dev).(instructionLength := DigitsValue(tok.value))
          else old(dev))
    {
      hide Tokens, Stoi, DigitsValue, AfterSemicolon;
      ok := true;
      var tok := lexer.NextToken();
      if tok.kind == Integer {
        var length := Stoi(tok.value);
        StoiOfDigits(tok.value);
        if length.None? { return false; }
        dev := dev.(instructionLength := length.value);
      }
      SkipToSemicolon(lexer);
    }

    method ParseBoundaryLength(lexer: Lexer)
      requires lexer.Valid() && dev.WellFormed()
      modifies this, lexer
      ensures lexer.Valid() && dev.WellFormed() && lexer.Remaining() == AfterSemicolon(Rest(old(lexer.Remaining())))
      ensures var tok := First(old(lexer.Remaining()));
        && (tok.kind == Integer ==> IsNumber(tok.value))
        && dev == if tok.kind == Integer && 0 < DigitsValue(tok.value) <= MAX_BSR_BITS
          then WithLength(old(dev), DigitsValue(tok.value)) else old(dev)
    {
      hide Tokens, Stoi, DigitsValue, AfterSemicolon;
      var tok := lexer.NextToken();
      if tok.kind == Integer {
        var parsed := Stoi(tok.value);
        StoiOfDigits(tok.value);
        var length := if parsed.Some? then parsed.value else 0;
        if 0 < length <= MAX_BSR_BITS {
          ResizedKeepsPlaces(dev, length);
          dev := WithLength(dev, length);
        }
      }
      SkipToSemicolon(lexer);
    }

    method ParseInstructionOpcode(lexer: Lexer)
      requires lexer.Valid()
      modifies this, lexer
      ensures lexer.Valid() && lexer.Remaining() == AfterSemicolon(Content(old(lexer.Remaining())).1)
      ensures dev == old(dev).(instructions := OpcodesInto(old(dev).instructions, Content(old(lexer.Remaining())).0, 0))
    {
      var content := ReadConcatenatedString(lexer);
      var table := ReadOpcodes(dev.instructions, content);
      dev := dev.(instructions := table);
      SkipToSemicolon(lexer);
    }

    method ReadOpcodes(m: map<string, nat>, content: string) returns (table: map<string, nat>)
      ensures table == OpcodesInto(m, content, 0)
    {
      hide OpcodesInto, RunEnd, BinaryDigits, BinaryValue, Upper;
      table := m;
      var pos := 0;
      while pos < |content|
        invariant 0 <= pos <= |content| && OpcodesInto(table, content, pos) == OpcodesInto(m, content, 0)
        decreases |content| - pos
      {
        ghost var at := pos;
        OpcodesStop(table, content, pos);
        pos := FindEnd(content, pos, IsSeparator);
        if pos >= |content| { break; }
        var start := pos;
        pos := FindEnd(content, pos, InName);
        var name := Upper(content[start..pos]);
        if |name| == 0 { break; }
        pos := FindEnd(content, pos, NotOpen);
        if pos >= |content| { break; }
        OpcodesStep(table, content, at);
        var open := pos + 1;
        pos := FindEnd(content, open, NotClose);
        var binary := OnlyBinary(content[open..pos]);
        if pos < |content| { pos := pos + 1; }
        if binary != "" {
          var opcode := OpcodeOf(binary);
          table := table[name := opcode];
        }
      }
      if pos == |content| {
        NothingLeft(content);
        OpcodesStop(table, content, pos);
      }
    }

    lemma NothingLeft(s: string)
      ensures NameEnd(s, |s|).0 == |s|
    {
    }

    method OnlyBinary(s: string) returns (binary: string)
      ensures binary == BinaryDigits(s)
    {
      binary := "";
      for i := 0 to |s|
        invariant binary == BinaryDigits(s[..i])
      {
        assert s[..i + 1][..i] == s[..i];
        if s[i] == '0' || s[i] == '1' { binary := binary + [s[i]]; }
      }
      assert s[..|s|] == s;
    }

    method ParseIdcodeRegister(lexer: Lexer)
      requires lexer.Valid()
      modifies this, lexer
      ensures lexer.Valid() && lexer.Remaining() == AfterSemicolon(Content(old(lexer.Remaining())).1)
      ensures var binary := BinaryDigits(Content(old(lexer.Remaining())).0);
        dev == if |binary| == 32 then old(dev).(idcode := BinaryValue(binary)) else old(dev)
    {
      var content := ReadConcatenatedString(lexer);
      var binary := OnlyBinary(content);
      if |binary| == 32 {
        var raw := OpcodeOf(binary);
        dev := dev.(idcode := raw);
      }
      SkipToSemicolon(lexer);
    }

    /** Each entry goes to the slot of its own number; the register grows for entries past the stated length. */
    method ParseBoundaryRegister(lexer: Lexer) returns (ok: bool)
      requires lexer.Valid() && dev.WellFormed()
      modifies this, lexer
      ensures lexer.Valid() && dev.WellFormed()
      ensures var content := Content(old(lexer.Remaining()));
        && (ok <==> CellsInto(old(dev), content.0, 0).Some?)
        && (ok ==> dev == CellsInto(old(dev), content.0, 0).value && lexer.Remaining() == AfterSemicolon(content.1))
    {
      hide Tokens, CellsInto, Content, AfterSemicolon;
      var content := ReadConcatenatedString(lexer);
      ok := ParseCells(content);
      if ok { SkipToSemicolon(lexer); }
    }

    method ParseCells(content: string) returns (ok: bool)
      requires dev.WellFormed()
      modifies this
      ensures dev.WellFormed()
      ensures ok <==> CellsInto(old(dev), content, 0).Some?
      ensures ok ==> dev == CellsInto(old(dev), content, 0).value
    {
      hide Stoi, DigitsValue, BsdlDevice.WellFormed, CellAt, Stored, CellsInto, RunEnd;
      ok := true;
      var pos := 0;
      while pos < |content|
        invariant 0 <= pos <= |content| && ok && dev.WellFormed()
        invariant CellsInto(dev, content, pos) == CellsInto(old(dev), content, 0)
        decreases |content| - pos
      {
        CellsStep(dev, content, pos);
        pos := FindEnd(content, pos, IsSeparator);
        if pos >= |content| { break; }
        var start := pos;
        pos := FindEnd(content, pos, IsDigit);
        if pos == start {
          pos := pos + 1;
          continue;
        }
        var digits := content[start..pos];
        StoiOfDigits(digits);
        var position := Stoi(digits);
        if position.None? { return false; }
        pos := FindEnd(content, pos, NotOpen);
        if pos >= |content| { break; }
        var cell;
        cell, pos := ReadCell(content, pos + 1, position.value);
        Store(cell);
      }
      if pos == |content| { CellsStep(dev, content, pos); }
    }

    /** The fields of an entry, up to and past its closing parenthesis. */
    method ReadCell(content: string, from: nat, position: nat) returns (cell: BoundaryCell, pos: nat)
      requires from <= |content|
      ensures (cell, pos) == CellAt(content, from, position)
    {
      hide FieldAt;
      pos := from;
      var cellType, pinName, function_, safe, disabledBy, disableValue, disableResult;
      disabledBy, disableValue, disableResult := "", "", "";
      cellType, pos := ReadField(content, pos);
      pinName, pos := ReadField(content, pos);
      function_, pos := ReadField(content, pos);
      safe, pos := ReadField(content, pos);
      if pos < |content| && content[pos] != ')' {
        disabledBy, pos := ReadField(content, pos);
      } else {
        NoField(content, pos);
      }
      if pos < |content| && content[pos] != ')' {
        disableValue, pos := ReadField(content, pos);
      } else {
        NoField(content, pos);
      }
      if pos < |content| && content[pos] != ')' {
        disableResult, pos := ReadField(content, pos);
      } else {
        NoField(content, pos);
      }
      pos := FindEnd(content, pos, NotClose);
      if pos < |content| { pos := pos + 1; }
      cell := CellOf(position, pinName, function_, safe, disabledBy, disableValue);
    }

    method Store(cell: BoundaryCell)
      requires dev.WellFormed() && cell.position >= 0
      modifies this
      ensures dev == Stored(old(dev), cell) && dev.WellFormed()
    {
      StoredKeepsPlaces(dev, cell);
      if cell.position < |dev.boundaryCells| {
        dev := dev.(boundaryCells := dev.boundaryCells[cell.position := cell]);
      } else if cell.position < MAX_BSR_BITS {
        var grown := Resized(dev.boundaryCells, cell.position + 1);
        dev := dev.(boundaryLength := |grown|, boundaryCells := grown[cell.position := cell]);
      }
    }
  }

  lemma ItemsStep(d: BsdlDevice, tokens: seq<Token>)
    requires d.WellFormed()
    ensures tokens == [] ==> ApplyAll(d, Items(tokens)) == Some(d)
    ensures tokens != [] ==> var rest, t := tokens[1..], tokens[0];
      && (t.kind != Identifier || t.value !in {"ENTITY", "PORT", "ATTRIBUTE"} ==> Items(tokens) == Items(rest))
      && (t.kind == Identifier && t.value == "ENTITY" ==> ApplyAll(d, Items(tokens)) == Continued(d, Entity(rest)))
      && (t.kind == Identifier && t.value == "PORT" ==> ApplyAll(d, Items(tokens)) == Continued(d, Ports(rest)))
      && (t == Token(Identifier, "ATTRIBUTE") ==> ApplyAll(d, Items(tokens)) == Continued(d, Attribute(rest)))
  {
    hide Entity, Ports, Attribute, Apply, BsdlDevice.WellFormed;
    if tokens != [] {
      var rest := tokens[1..];
      ApplyAppend(d, Entity(rest).0, Items(Entity(rest).1));
      ApplyAppend(d, Ports(rest).0, Items(Ports(rest).1));
      ApplyAppend(d, Attribute(rest).0, Items(Attribute(rest).1));
    }
  }

  /** What a number token says, as a length and as a count of slots. */
  lemma NumberApplies(d: BsdlDevice, s: string)
    requires d.WellFormed()
    ensures IsNumber(s) ==>
      Apply(d, Length(s)) == if TooLarge(s) then None else Some(d.(instructionLength := DigitsValue(s)))
    ensures IsNumber(s) ==>
      Apply(d, Slots(s)) == Some(if 0 < DigitsValue(s) <= MAX_BSR_BITS then WithLength(d, DigitsValue(s)) else d)
  {
    hide Stoi, DigitsValue, WithLength;
    if IsNumber(s) {
      StoiOfDigits(s);
      if 0 < DigitsValue(s) <= MAX_BSR_BITS { ResizedKeepsPlaces(d, DigitsValue(s)); }
    }
  }

  /** A statement applied, then the rest of the text. */
  function Continued(d: BsdlDevice, r: (seq<Item>, seq<Token>)): Option<BsdlDevice>
    requires d.WellFormed()
  {
    match ApplyAll(d, r.0)
    case None => None
    case Some(e) => ApplyAll(e, Items(r.1))
  }

  lemma PrefixNothing(r: (seq<Item>, seq<Token>))
    ensures Prefixed([], r) == r
  {
    assert [] + r.0 == r.0;
  }

  /** One turn of the port loop. */
  lemma PortsStep(done: seq<Item>, tokens: seq<Token>)
    ensures tokens == [] || tokens[0].kind == RightParen ==> Prefixed(done, PortList(tokens)) == (done, Rest(tokens))
    ensures tokens != [] && tokens[0].kind !in {RightParen, Identifier} ==> PortList(tokens) == PortList(tokens[1..])
    ensures tokens != [] && tokens[0].kind == Identifier ==> var port := Port(tokens[0].value, tokens[1..]);
      Prefixed(done, PortList(tokens))
        == if port.1 then (done + port.0, port.2) else Prefixed(done + port.0, PortList(port.2))
    ensures tokens != [] && tokens[0].kind == Identifier ==> |Port(tokens[0].value, tokens[1..]).2| < |tokens|
  {
    hide Port;
    if tokens != [] && tokens[0].kind == Identifier {
      var port := Port(tokens[0].value, tokens[1..]);
      assert done + (port.0 + PortList(port.2).0) == done + port.0 + PortList(port.2).0;
    }
    assert done + [] == done;
  }

  /** The device with a cell put into its slot, grown as far as the limit allows. */
  function Stored(d: BsdlDevice, cell: BoundaryCell): BsdlDevice
    requires cell.position >= 0
  {
    if cell.position < |d.boundaryCells| then d.(boundaryCells := d.boundaryCells[cell.position := cell])
    else if cell.position < MAX_BSR_BITS then
      var n := cell.position + 1;
      d.(boundaryLength := n, boundaryCells := Resized(d.boundaryCells, n)[cell.position := cell])
    else d
  }

  /** Below the stated length a cell replaces what its slot held; past it the register grows to end with the cell,
      with empty slots before it; a cell past the limit is dropped. */
  lemma StoredIs(d: BsdlDevice, cell: BoundaryCell)
    requires d.WellFormed() && cell.position >= 0
    ensures var r, n, p := Stored(d, cell), |d.boundaryCells|, cell.position;
      && (p >= 65536 ==> r == d)
      && (p < 65536 ==> r.boundaryLength == |r.boundaryCells| == (if p < n then n else p + 1))
      && (p < 65536 ==>
            forall q :: 0 <= q < |r.boundaryCells| ==>
              r.boundaryCells[q] == if q == p then cell else if q < n then d.boundaryCells[q]
                                    else BoundaryCell(-1, "", Input, -1, -1, -1))
      && r == d.(boundaryLength := r.boundaryLength, boundaryCells := r.boundaryCells)
  {
  }

  lemma StoredKeepsPlaces(d: BsdlDevice, cell: BoundaryCell)
    requires d.WellFormed() && cell.position >= 0
    ensures Stored(d, cell).WellFormed()
  {
    var n := cell.position + 1;
    if cell.position < |d.boundaryCells| {
      PutKeepsPlaces(d, cell);
    } else if cell.position < MAX_BSR_BITS {
      ResizedKeepsPlaces(d, n);
      PutKeepsPlaces(WithLength(d, n), cell);
    }
  }

  function BitOrNone(s: string): int {
    if s == "0" then 0 else if s == "1" then 1 else -1
  }

  /** A field without its blanks, in upper case, past its comma. */
  method ReadField(content: string, from: nat) returns (field: string, pos: nat)
    requires from <= |content|
    ensures (field, pos) == FieldAt(content, from)
  {
    field, pos := "", from;
    while pos < |content| && content[pos] != ',' && content[pos] != ')'
      invariant from <= pos <= |content| && field == Clean(content[from..pos])
      invariant RunEnd(content, pos, InField) == RunEnd(content, from, InField)
    {
      assert content[from..pos + 1][..pos - from] == content[from..pos];
      if !IsBlank(content[pos]) { field := field + [ToUpper(content[pos])]; }
      pos := pos + 1;
    }
    if pos < |content| && content[pos] == ',' { pos := pos + 1; }
  }
}
