/** Written device descriptions: every device that can be written as BSDL reads back as itself. */
module BsdlWriter {
  import opened Bytes
  import opened Bsdl
  import opened BsdlLexer
  import opened BsdlParser
  import opened BsdlSpelling

  // ---------------------------------------------------------------- numbers

  function Decimal(n: nat): (s: string)
    ensures s != "" && forall i :: 0 <= i < |s| ==> '0' <= s[i] <= '9'
  {
    (if n < 10 then "" else Decimal(n / 10)) + ["0123456789"[n % 10]]
  }

  lemma {:induction false} DecimalReads(n: nat)
    ensures IsNumber(Decimal(n)) && DigitsValue(Decimal(n)) == n
  {
    var s := Decimal(n);
    var front := s[..|s| - 1];
    assert front == if n < 10 then "" else Decimal(n / 10);
    if n >= 10 { DecimalReads(n / 10); }
  }

  /** The n low bits of a code, most significant first. */
  function Binary(code: nat, n: nat): (s: string)
    ensures |s| == n && forall i :: 0 <= i < n ==> s[i] in "01"
  {
    if n == 0 then "" else Binary(code / 2, n - 1) + [if code % 2 == 1 then '1' else '0']
  }

  lemma {:induction false} BinaryReads(code: nat, n: nat)
    requires code < Pow2(n)
    ensures BinaryDigits(Binary(code, n)) == Binary(code, n) && BinaryValue(Binary(code, n)) == code
  {
    if n > 0 {
      var s := Binary(code, n);
      assert s[..n - 1] == Binary(code / 2, n - 1);
      BinaryReads(code / 2, n - 1);
    }
  }

  // ----------------------------------------------------------- opcode tables

  datatype Opcode = Opcode(name: string, code: nat, width: nat)

  predicate IsOpcode(o: Opcode) {
    && o.name != "" && (forall i :: 0 <= i < |o.name| ==> o.name[i] !in " \t\r\n,(" && !('a' <= o.name[i] <= 'z'))
    && 0 < o.width && o.code < Pow2(o.width)
  }

  /** What may stand between two entries of a string. */
  predicate Separates(s: string) { forall i :: 0 <= i < |s| ==> s[i] in " \t\r\n," }

  function OpcodeText(table: seq<Opcode>, between: string): string {
    if table == [] then ""
    else OpcodeEntry(table[0], if |table| == 1 then "" else between + OpcodeText(table[1..], between))
  }

  function OpcodeEntry(o: Opcode, after: string): string { o.name + " (" + Binary(o.code, o.width) + ")" + after }

  function WithOpcodes(m: map<string, nat>, table: seq<Opcode>): map<string, nat>
    decreases |table|
  {
    if table == [] then m else WithOpcodes(m[table[0].name := table[0].code], table[1..])
  }

  /** In a table the last entry of a name decides, and nothing else is in it. */
  lemma {:induction false} WithOpcodesAt(m: map<string, nat>, table: seq<Opcode>, i: nat, name: string)
    requires i < |table| ==> forall j :: i < j < |table| ==> table[j].name != table[i].name
    ensures var r := WithOpcodes(m, table);
      && (i < |table| ==> table[i].name in r && r[table[i].name] == table[i].code)
      && (name in r <==> name in m || exists j :: 0 <= j < |table| && table[j].name == name)
      && ((forall j :: 0 <= j < |table| ==> table[j].name != name) && name in m ==> r[name] == m[name])
    decreases |table|
  {
    if table != [] {
      var m', rest := m[table[0].name := table[0].code], table[1..];
      if i > 0 {
        WithOpcodesAt(m', rest, i - 1, name);
      } else {
        WithOpcodesAt(m', rest, |rest|, name);
        WithOpcodesAt(m', rest, |rest|, table[0].name);
      }
      assert forall j :: 1 <= j < |table| ==> table[j] == rest[j - 1];
      assert forall j :: 0 <= j < |rest| ==> rest[j] == table[j + 1];
    }
  }

  lemma SliceOf(s: string, pos: nat, t: string, i: nat, j: nat)
    requires pos <= |s| && s[pos..] == t && i <= j <= |t|
    ensures pos + j <= |s| && s[pos + i..pos + j] == t[i..j] && s[pos + j..] == t[j..]
    ensures i < j ==> s[pos + i] == t[i]
  {
    assert forall k :: 0 <= k < |t| ==> t[k] == s[pos + k];
    assert s[pos + j..] == t[j..];
  }

  /** A stretch of characters of one kind up to another one. */
  lemma RunOf(s: string, pos: nat, word: string, e: nat, more: char -> bool)
    requires e == pos + |word| <= |s| && s[pos..e] == word && (forall i :: 0 <= i < |word| ==> more(word[i]))
    requires e < |s| ==> !more(s[e])
    ensures RunEnd(s, pos, more) == e
  {
    forall i | pos <= i < e ensures more(s[i]) { assert s[i] == word[i - pos]; }
    RunEndIs(s, pos, e, more);
  }

  /** An entry read where it stands, behind separators. */
  lemma OpcodeReads(m: map<string, nat>, s: string, pos: nat, separators: string, o: Opcode, after: string)
      returns (next: nat)
    requires IsOpcode(o) && pos <= |s| && s[pos..] == separators + OpcodeEntry(o, after) && Separates(separators)
    ensures pos < next <= |s| && s[next..] == after
    ensures OpcodesInto(m, s, pos) == OpcodesInto(m[o.name := o.code], s, next)
  {
    hide OpcodesInto, Binary, BinaryDigits, BinaryValue, Pow2, Upper, RunEnd, OpcodeEntry;
    var p := pos + |separators|;
    var e := p + |o.name|;
    var c := e + 2 + o.width;
    next := c + 1;
    OpcodePlaces(s, pos, separators, o, after, p, e, c);
    BinaryReads(o.code, o.width);
    UpperStays(o.name);
    OpcodesStep(m, s, pos);
  }

  lemma OpcodePlaces(s: string, pos: nat, separators: string, o: Opcode, after: string, p: nat, e: nat, c: nat)
    requires IsOpcode(o) && pos <= |s| && s[pos..] == separators + OpcodeEntry(o, after) && Separates(separators)
    requires p == pos + |separators| && e == p + |o.name| && c == e + 2 + o.width
    ensures p < e < c < |s| && s[p..e] == o.name && s[e + 2..c] == Binary(o.code, o.width) && s[c + 1..] == after
    ensures NameEnd(s, pos) == (p, e, e + 1) && RunEnd(s, e + 2, NotClose) == c
  {
    hide Binary, RunEnd, OpcodeEntry, Pow2;
    OpcodeSlices(s, pos, separators, o, after, p, e, c);
    assert s[p] == o.name[0];
    RunOf(s, pos, separators, p, IsSeparator);
    RunOf(s, p, o.name, e, InName);
    RunOf(s, e, " ", e + 1, NotOpen);
    RunOf(s, e + 2, Binary(o.code, o.width), c, NotClose);
  }

  lemma OpcodeSlices(s: string, pos: nat, separators: string, o: Opcode, after: string, p: nat, e: nat, c: nat)
    requires IsOpcode(o) && pos <= |s| && s[pos..] == separators + OpcodeEntry(o, after)
    requires p == pos + |separators| && e == p + |o.name| && c == e + 2 + o.width
    ensures p < e < c < |s| && s[pos..p] == separators && s[p..e] == o.name && s[p] == o.name[0]
    ensures s[e..e + 1] == " " && s[e] == ' ' && s[e + 1] == '(' && s[e + 2..c] == Binary(o.code, o.width)
    ensures s[c] == ')' && s[c + 1..] == after
  {
    hide Binary, OpcodeEntry, Pow2, IsOpcode;
    OpcodeParts(s[pos..], separators, o, Binary(o.code, o.width), after);
    NameIsThere(o);
    HeadOf(s, pos, s[pos..], |separators|, e - pos);
    BodyOf(s, pos, s[pos..], e - pos, c - pos);
    assert s[p] == s[p..e][0];
  }

  lemma NameIsThere(o: Opcode)
    requires IsOpcode(o)
    ensures o.name != "" && o.width > 0
  {
  }

  lemma HeadOf(s: string, pos: nat, t: string, n: nat, e: nat)
    requires pos <= |s| && t == s[pos..] && n <= e < |t|
    ensures s[pos..pos + n] == t[..n] && s[pos + n..pos + e] == t[n..e] && s[pos + e] == t[e]
    ensures s[pos + e..pos + e + 1] == [t[e]]
  {
    SliceOf(s, pos, t, 0, n);
    SliceOf(s, pos, t, n, e);
    SliceOf(s, pos, t, e, e + 1);
  }

  lemma BodyOf(s: string, pos: nat, t: string, e: nat, c: nat)
    requires pos <= |s| && t == s[pos..] && e + 2 <= c < |t|
    ensures s[pos + e + 1] == t[e + 1] && s[pos + e + 2..pos + c] == t[e + 2..c]
    ensures s[pos + c] == t[c] && s[pos + c + 1..] == t[c + 1..]
  {
    SliceOf(s, pos, t, e + 1, e + 2);
    SliceOf(s, pos, t, e + 2, c);
    SliceOf(s, pos, t, c, c + 1);
  }

  lemma OpcodeParts(t: string, separators: string, o: Opcode, binary: string, after: string)
    requires binary == Binary(o.code, o.width) && t == separators + OpcodeEntry(o, after)
    ensures var n, e := |separators|, |separators| + |o.name|;
      && |t| == e + 3 + o.width + |after| && t[..n] == separators && t[n..e] == o.name && t[e] == ' ' && t[e + 1] == '('
      && t[e + 2..e + 2 + o.width] == binary && t[e + 2 + o.width] == ')' && t[e + 3 + o.width..] == after
  {
    hide Binary;
    assert t == separators + o.name + " (" + binary + ")" + after;
  }

  lemma UpperStays(s: string)
    requires forall i :: 0 <= i < |s| ==> !('a' <= s[i] <= 'z')
    ensures Upper(s) == s
  {
  }

  lemma {:induction false} OpcodesRead(m: map<string, nat>, s: string, pos: nat, separators: string,
                                       table: seq<Opcode>, between: string)
    requires Separates(between) && (separators == "" || table != [])
    requires forall i :: 0 <= i < |table| ==> IsOpcode(table[i])
    requires pos <= |s| && s[pos..] == separators + OpcodeText(table, between) && Separates(separators)
    ensures OpcodesInto(m, s, pos) == WithOpcodes(m, table)
    decreases |table|
  {
    hide OpcodesInto, IsOpcode, OpcodeEntry;
    if table == [] {
      OpcodesEnd(m, s);
    } else {
      var more, rest := if |table| == 1 then "" else between, table[1..];
      var after := more + OpcodeText(rest, between);
      assert after == if |table| == 1 then "" else between + OpcodeText(rest, between);
      var next := OpcodeReads(m, s, pos, separators, table[0], after);
      OpcodesRead(m[table[0].name := table[0].code], s, next, more, rest, between);
    }
  }

  lemma OpcodesEnd(m: map<string, nat>, s: string)
    ensures OpcodesInto(m, s, |s|) == m
  {
    OpcodesStop(m, s, |s|);
  }

  // -------------------------------------------------------- register strings

  predicate IsName(s: string) {
    s != "" && forall i :: 0 <= i < |s| ==> s[i] !in " \t\r\n,()" && !('a' <= s[i] <= 'z')
  }

  function FunctionName(f: CellFunction): string {
    match f
    case Input => "INPUT"
    case Output2 => "OUTPUT2"
    case Output3 => "OUTPUT3"
    case Control => "CONTROL"
    case Bidir => "BIDIR"
    case ClockIn => "CLOCK"
    case Internal => "INTERNAL"
  }

  function BitName(b: int): string {
    if b == 0 then "0" else if b == 1 then "1" else "X"
  }

  predicate IsCell(c: BoundaryCell) {
    && 0 <= c.position < 65536 && IsName(c.pinName) && c.safeValue in {-1, 0, 1} && c.disableValue in {-1, 0, 1}
    && -1 <= c.disabledBy < 65536 && (c.disabledBy == -1 ==> c.disableValue == -1)
  }

  /** A field as it is written, behind a blank. */
  function Field(s: string): string { " " + s }

  /** An entry behind its opening parenthesis: seven fields, or four for a cell that nothing disables. */
  function CellText(c: BoundaryCell, after: string): string
    requires c.disabledBy >= -1
  {
    var pin, function_, safe := Field(c.pinName), Field(FunctionName(c.function_)), Field(BitName(c.safeValue));
    if c.disabledBy == -1 then ShortEntry("BC_1", pin, function_, safe, after)
    else
      Entry("BC_1", pin, function_, safe, Field(Decimal(c.disabledBy)), Field(BitName(c.disableValue)), Field("Z"),
            after)
  }

  function CellEntry(c: BoundaryCell, after: string): string
    requires IsCell(c)
  {
    Decimal(c.position) + " (" + CellText(c, after)
  }

  function RegisterText(cells: seq<BoundaryCell>, between: string): string
    requires forall i :: 0 <= i < |cells| ==> IsCell(cells[i])
  {
    if cells == [] then ""
    else CellEntry(cells[0], if |cells| == 1 then "" else between + RegisterText(cells[1..], between))
  }

  lemma PlainField(f: string)
    requires forall i :: 0 <= i < |f| ==> f[i] !in " \t\r\n,()" && !('a' <= f[i] <= 'z')
    ensures IsField(Field(f)) && Clean(Field(f)) == f
  {
    hide Clean;
    FieldMayStand(f);
    CleanAppend(" ", f);
    BlankIsClean();
    CleanPlain(f);
    assert "" + f == f;
  }

  lemma FieldMayStand(f: string)
    requires forall i :: 0 <= i < |f| ==> f[i] !in " \t\r\n,()"
    ensures IsField(Field(f))
  {
    assert forall i :: 0 < i < |Field(f)| ==> Field(f)[i] == f[i - 1];
  }

  lemma BlankIsClean()
    ensures Clean(" ") == ""
  {
    assert " "[..0] == "";
  }

  lemma FieldsArePlain(c: BoundaryCell)
    requires IsCell(c)
    ensures IsField(Field(c.pinName)) && Clean(Field(c.pinName)) == c.pinName
    ensures var f := FunctionName(c.function_); IsField(Field(f)) && Clean(Field(f)) == f
    ensures var f := BitName(c.safeValue); IsField(Field(f)) && Clean(Field(f)) == f
    ensures var f := BitName(c.disableValue); IsField(Field(f)) && Clean(Field(f)) == f
    ensures c.disabledBy >= 0 ==> var f := Decimal(c.disabledBy); IsField(Field(f)) && Clean(Field(f)) == f
    ensures IsField("BC_1") && IsField(Field("Z"))
  {
    hide Clean, Field, IsField, Decimal;
    PlainField(c.pinName);
    PlainField(FunctionName(c.function_));
    PlainField(BitName(c.safeValue));
    PlainField(BitName(c.disableValue));
    if c.disabledBy >= 0 { PlainField(Decimal(c.disabledBy)); }
    TypesAreFields();
  }

  lemma TypesAreFields()
    ensures IsField("BC_1") && IsField(Field("Z"))
  {
  }

  lemma CellIs(c: BoundaryCell)
    requires IsCell(c)
    ensures var control := if c.disabledBy == -1 then "" else Decimal(c.disabledBy);
      var value := if c.disabledBy == -1 then "" else BitName(c.disableValue);
      CellOf(c.position, c.pinName, FunctionName(c.function_), BitName(c.safeValue), control, value) == c
  {
    hide Stoi, DigitsValue, Decimal;
    if c.disabledBy >= 0 {
      DecimalReads(c.disabledBy);
      StoiOfDigits(Decimal(c.disabledBy));
      assert Decimal(c.disabledBy)[0] != 'X';
    }
  }

  lemma CellTextReads(before: string, c: BoundaryCell, after: string)
    requires IsCell(c)
    ensures var s := before + CellText(c, after);
      var r := CellAt(s, |before|, c.position);
      r.0 == c && s[r.1..] == after
  {
    hide Clean, Field, IsField, Decimal, CellOf, CellAt, Entry, ShortEntry, FunctionName, BitName;
    FieldsArePlain(c);
    CellIs(c);
    var pin, function_, safe := Field(c.pinName), Field(FunctionName(c.function_)), Field(BitName(c.safeValue));
    if c.disabledBy == -1 {
      ShortCellReadsBack(before, "BC_1", pin, function_, safe, after, c.position);
    } else {
      CellReadsBack(before, "BC_1", pin, function_, safe, Field(Decimal(c.disabledBy)),
                    Field(BitName(c.disableValue)), Field("Z"), after, c.position);
    }
  }

  function WithCells(slots: seq<BoundaryCell>, cells: seq<BoundaryCell>): (r: seq<BoundaryCell>)
    requires forall i :: 0 <= i < |cells| ==> 0 <= cells[i].position < |slots|
    ensures |r| == |slots|
    decreases |cells|
  {
    if cells == [] then slots else WithCells(slots[cells[0].position := cells[0]], cells[1..])
  }

  /** Every slot holds the last cell of its position, or what it held. */
  lemma {:induction false} WithCellsAt(slots: seq<BoundaryCell>, cells: seq<BoundaryCell>, i: nat, place: nat)
    requires place < |slots| && forall j :: 0 <= j < |cells| ==> 0 <= cells[j].position < |slots|
    requires i < |cells| ==> forall j :: i < j < |cells| ==> cells[j].position != cells[i].position
    ensures var r := WithCells(slots, cells);
      && (i < |cells| ==> r[cells[i].position] == cells[i])
      && ((forall j :: 0 <= j < |cells| ==> cells[j].position != place) ==> r[place] == slots[place])
    decreases |cells|
  {
    if cells != [] {
      var slots', rest := slots[cells[0].position := cells[0]], cells[1..];
      assert forall j :: 0 <= j < |rest| ==> rest[j] == cells[j + 1];
      if i > 0 {
        WithCellsAt(slots', rest, i - 1, place);
      } else {
        WithCellsAt(slots', rest, |rest|, place);
        WithCellsAt(slots', rest, |rest|, cells[0].position);
      }
      assert forall j :: 1 <= j < |cells| ==> cells[j] == rest[j - 1];
    }
  }

  function InSlot(d: BsdlDevice, c: BoundaryCell): BsdlDevice
    requires 0 <= c.position < |d.boundaryCells|
  {
    d.(boundaryCells := d.boundaryCells[c.position := c])
  }

  /** An entry read where it stands, behind separators. */
  lemma CellReads(d: BsdlDevice, s: string, pos: nat, separators: string, c: BoundaryCell, after: string)
      returns (next: nat)
    requires IsCell(c) && d.WellFormed() && c.position < |d.boundaryCells|
    requires pos <= |s| && s[pos..] == separators + CellEntry(c, after) && Separates(separators)
    ensures pos < next <= |s| && s[next..] == after && InSlot(d, c).WellFormed()
    ensures CellsInto(d, s, pos) == CellsInto(InSlot(d, c), s, next)
  {
    hide CellsInto, Stoi, DigitsValue, CellEntry, CellText, CellAt, RunEnd, Decimal, BsdlDevice.WellFormed, IsNumber;
    var digits := Decimal(c.position);
    var p := pos + |separators|;
    var e := p + |digits|;
    CellPlaces(s, pos, separators, c, after, p, e);
    DecimalReads(c.position);
    StoiOfDigits(digits);
    CellTextReads(s[..e + 2], c, after);
    assert s == s[..e + 2] + CellText(c, after);
    next := CellAt(s, e + 2, c.position).1;
    CellsStep(d, s, pos);
    PutKeepsPlaces(d, c);
  }

  lemma CellPlaces(s: string, pos: nat, separators: string, c: BoundaryCell, after: string, p: nat, e: nat)
    requires IsCell(c) && pos <= |s| && s[pos..] == separators + CellEntry(c, after) && Separates(separators)
    requires p == pos + |separators| && e == p + |Decimal(c.position)|
    ensures p < e && e + 2 <= |s| && s[p..e] == Decimal(c.position) && s[e + 2..] == CellText(c, after)
    ensures RunEnd(s, pos, IsSeparator) == p && RunEnd(s, p, IsDigit) == e && RunEnd(s, e, NotOpen) == e + 1
  {
    hide Decimal, CellText, RunEnd, CellEntry;
    CellSlices(s, pos, separators, c, after, p, e);
    var digits := Decimal(c.position);
    RunOf(s, pos, separators, p, IsSeparator);
    RunOf(s, p, digits, e, IsDigit);
    RunOf(s, e, " ", e + 1, NotOpen);
  }

  lemma CellSlices(s: string, pos: nat, separators: string, c: BoundaryCell, after: string, p: nat, e: nat)
    requires IsCell(c) && pos <= |s| && s[pos..] == separators + CellEntry(c, after)
    requires p == pos + |separators| && e == p + |Decimal(c.position)|
    ensures p < e && e + 2 <= |s| && s[pos..p] == separators && s[p..e] == Decimal(c.position)
    ensures s[p] == Decimal(c.position)[0] && s[e..e + 1] == " " && s[e] == ' ' && s[e + 1] == '('
    ensures s[e + 2..] == CellText(c, after)
  {
    hide Decimal, CellText, CellEntry;
    CellParts(s[pos..], separators, c, after);
    HeadOf(s, pos, s[pos..], |separators|, e - pos);
    SliceOf(s, pos, s[pos..], e + 1 - pos, e + 2 - pos);
    assert s[p] == s[p..e][0];
  }

  lemma CellParts(t: string, separators: string, c: BoundaryCell, after: string)
    requires IsCell(c) && t == separators + CellEntry(c, after)
    ensures var n, e := |separators|, |separators| + |Decimal(c.position)|;
      && e + 2 <= |t| && t[..n] == separators && t[n..e] == Decimal(c.position) && t[e] == ' ' && t[e + 1] == '('
      && t[e + 2..] == CellText(c, after)
  {
    hide Decimal, CellText;
    assert t == separators + Decimal(c.position) + " (" + CellText(c, after);
  }

  lemma {:induction false} CellsRead(d: BsdlDevice, s: string, pos: nat, separators: string, cells: seq<BoundaryCell>,
                                     between: string)
    requires Separates(between) && d.WellFormed() && (separators == "" || cells != [])
    requires forall i :: 0 <= i < |cells| ==> IsCell(cells[i]) && cells[i].position < |d.boundaryCells|
    requires pos <= |s| && s[pos..] == separators + RegisterText(cells, between) && Separates(separators)
    ensures CellsInto(d, s, pos) == Some(d.(boundaryCells := WithCells(d.boundaryCells, cells)))
    decreases |cells|
  {
    hide CellsInto, CellEntry, BsdlDevice.WellFormed;
    if cells == [] {
      CellsEnd(d, s);
    } else {
      var more, rest := if |cells| == 1 then "" else between, cells[1..];
      var after := more + RegisterText(rest, between);
      assert after == if |cells| == 1 then "" else between + RegisterText(rest, between);
      var next := CellReads(d, s, pos, separators, cells[0], after);
      CellsRead(InSlot(d, cells[0]), s, next, more, rest, between);
    }
  }

  lemma CellsEnd(d: BsdlDevice, s: string)
    requires d.WellFormed()
    ensures CellsInto(d, s, |s|) == Some(d)
  {
  }
}
