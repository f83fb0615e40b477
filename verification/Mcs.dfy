/** Intel HEX files: records from text, and the image they describe. */
module Mcs {
  import opened Bytes
  import NorFlash

  const ADDRESSES := 0x1_0000_0000

  datatype Error = BadRecord | BadExtension | TooLarge | NoData
    | OutOfRange // the 32-bit end of a record wrapped: the copy would go outside the buffer

  datatype Result<+T> = Ok(value: T) | Err(error: Error)

  // ------------------------------------------------------------ hex digits

  function HexDigit(c: char): (d: int)
    ensures -1 <= d < 16
  {
    if '0' <= c <= '9' then c as int - '0' as int
    else if 'A' <= c <= 'F' then c as int - 'A' as int + 10
    else if 'a' <= c <= 'f' then c as int - 'a' as int + 10
    else -1
  }

  /** The byte written in two digits at pos, or -1. */
  function HexByte(line: string, pos: nat): (b: int)
    ensures -1 <= b < 256
  {
    if pos + 2 > |line| || HexDigit(line[pos]) < 0 || HexDigit(line[pos + 1]) < 0 then -1
    else 16 * HexDigit(line[pos]) + HexDigit(line[pos + 1])
  }

  /** The n bytes written from pos on. */
  function HexBytes(line: string, pos: nat, n: nat): (r: Option<seq<nat>>)
    ensures r.Some? ==> |r.value| == n
  {
    if n == 0 then Some([])
    else
      match HexBytes(line, pos, n - 1)
      case None => None
      case Some(front) =>
        var b := HexByte(line, pos + 2 * (n - 1));
        if b < 0 then None else Some(front + [b])
  }

  function Sum(bytes: seq<nat>): nat {
    if bytes == [] then 0 else Sum(bytes[..|bytes| - 1]) + bytes[|bytes| - 1]
  }

  // --------------------------------------------------------------- records

  datatype Record = Record(addr: nat, kind: nat, data: seq<nat>)

  /** A well-formed record is a colon and length, address, kind, data and checksum bytes that add up to 0 modulo 256;
      text after them is ignored. */
  function RecordOf(line: string): Option<Record> {
    if |line| < 11 || line[0] != ':' || HexByte(line, 1) < 0 then None
    else
      var n := HexByte(line, 1);
      match HexBytes(line, 1, 5 + n)
      case None => None
      case Some(b) => if Sum(b) % 256 != 0 then None else Some(Record(256 * b[1] + b[2], b[3], b[4..4 + n]))
  }

  lemma {:induction false} HexBytesAt(line: string, pos: nat, n: nat)
    ensures HexBytes(line, pos, n).Some? <==> forall i {:trigger HexByte(line, pos + 2 * i)} :: 0 <= i < n ==>
      HexByte(line, pos + 2 * i) >= 0
    ensures HexBytes(line, pos, n).Some? ==> forall i :: 0 <= i < n ==>
      HexBytes(line, pos, n).value[i] == HexByte(line, pos + 2 * i)
  {
    hide HexByte;
    if n > 0 {
      HexBytesAt(line, pos, n - 1);
    }
  }

  lemma HexBytesSnoc(line: string, pos: nat, n: nat, at: nat)
    requires at == pos + 2 * n
    ensures HexBytes(line, pos, n + 1) ==
      if HexBytes(line, pos, n).Some? && HexByte(line, at) >= 0
        then Some(HexBytes(line, pos, n).value + [HexByte(line, at)]) else None
  {
    hide HexByte;
  }

  /** Reads one record, keeping a running checksum. */
  method ParseMcsRecord(line: string) returns (r: Result<Record>)
    ensures r.Ok? <==> RecordOf(line).Some?
    ensures r.Ok? ==> r.value == RecordOf(line).value
  {
    hide HexByte, HexDigit, HexBytes, Sum;
    if |line| < 11 || line[0] != ':' { return Err(BadRecord); }
    var length, addrH, addrL, kind := HexByte(line, 1), HexByte(line, 3), HexByte(line, 5), HexByte(line, 7);
    if length < 0 { return Err(BadRecord); }
    HexBytesAt(line, 1, 5 + length);
    FieldPlaces(line, length);
    if addrH < 0 || addrL < 0 || kind < 0 { return Err(BadRecord); }
    if |line| < 1 + (4 + length + 1) * 2 {
      BeyondEnd(line, 1 + 2 * (4 + length));
      assert HexByte(line, 1 + 2 * (4 + length)) < 0;
      return Err(BadRecord);
    }
    FirstFour(line, length, addrH, addrL, kind);
    ghost var head := [length, addrH, addrL, kind];
    var ok, data, checksum := ReadData(line, length, (length + addrH + addrL + kind) % 256, head);
    if !ok { return Err(BadRecord); }
    ghost var all := HexBytes(line, 1, 5 + length).value;
    assert all == head + data + [all[4 + length]];
    assert all[4..4 + length] == data;
    if checksum != 0 { return Err(BadRecord); }
    r := Ok(Record(addrH * 256 + addrL, kind, data));
  }

  /** The data bytes and the checksum after the four bytes of `head`. */
  method ReadData(line: string, length: nat, start: nat, ghost head: seq<nat>)
      returns (ok: bool, data: seq<nat>, checksum: nat)
    requires HexBytes(line, 1, 4) == Some(head) && start == Sum(head) % 256
    ensures ok <==> HexBytes(line, 1, 5 + length).Some?
    ensures ok ==> var all := HexBytes(line, 1, 5 + length).value;
      |data| == length && all == head + data + [all[4 + length]] && checksum == Sum(all) % 256
  {
    hide HexByte, HexBytes, Sum;
    HexBytesAt(line, 1, 5 + length);
    checksum := start;
    data := [];
    assert head + [] == head;
    for i := 0 to length
      invariant |data| == i && HexBytes(line, 1, 4 + i) == Some(head + data)
      invariant checksum == Sum(head + data) % 256
    {
      var b := HexByte(line, 9 + i * 2);
      if b < 0 {
        assert HexByte(line, 1 + 2 * (4 + i)) < 0;
        return false, data, checksum;
      }
      HexBytesSnoc(line, 1, 4 + i, 9 + i * 2);
      SumSnoc(head + data, b);
      assert head + (data + [b]) == head + data + [b];
      data := data + [b];
      checksum := (checksum + b) % 256;
    }
    var ck := HexByte(line, 9 + length * 2);
    HexBytesSnoc(line, 1, 4 + length, 9 + length * 2);
    if ck < 0 { return false, data, checksum; }
    SumSnoc(head + data, ck);
    checksum := (checksum + ck) % 256;
    ok := true;
  }

  lemma FieldPlaces(line: string, length: nat)
    ensures HexByte(line, 1 + 2 * 1) == HexByte(line, 3) && HexByte(line, 1 + 2 * 2) == HexByte(line, 5)
    ensures HexByte(line, 1 + 2 * 3) == HexByte(line, 7)
  {
  }

  lemma FirstFour(line: string, b0: nat, b1: nat, b2: nat, b3: nat)
    requires HexByte(line, 1) == b0 && HexByte(line, 3) == b1 && HexByte(line, 5) == b2 && HexByte(line, 7) == b3
    ensures HexBytes(line, 1, 4) == Some([b0, b1, b2, b3]) && Sum([b0, b1, b2, b3]) == b0 + b1 + b2 + b3
  {
    hide HexByte;
    HexBytesSnoc(line, 1, 0, 1);
    HexBytesSnoc(line, 1, 1, 3);
    HexBytesSnoc(line, 1, 2, 5);
    HexBytesSnoc(line, 1, 3, 7);
    SumSnoc([], b0);
    SumSnoc([b0], b1);
    SumSnoc([b0, b1], b2);
    SumSnoc([b0, b1, b2], b3);
    assert [] + [b0] == [b0] && [b0] + [b1] == [b0, b1] && [b0, b1] + [b2] == [b0, b1, b2]
      && [b0, b1, b2] + [b3] == [b0, b1, b2, b3];
  }

  lemma SumSnoc(bytes: seq<nat>, b: nat)
    ensures Sum(bytes + [b]) == Sum(bytes) + b
  {
    assert (bytes + [b])[..|bytes|] == bytes;
  }

  lemma BeyondEnd(line: string, pos: nat)
    requires |line| < pos + 2
    ensures HexByte(line, pos) == -1
  {
  }

  /** Two digits, in either case, most significant first. */
  lemma TwoDigits(line: string, pos: nat, h: nat, l: nat)
    requires h < 16 && l < 16 && pos + 2 <= |line|
    requires line[pos] in ["0123456789ABCDEF"[h], "0123456789abcdef"[h]]
    requires line[pos + 1] in ["0123456789ABCDEF"[l], "0123456789abcdef"[l]]
    ensures HexByte(line, pos) == 16 * h + l
  {
    DigitIs(h);
    DigitIs(l);
  }

  lemma DigitIs(d: nat)
    requires d < 16
    ensures HexDigit("0123456789ABCDEF"[d]) == d && HexDigit("0123456789abcdef"[d]) == d
  {
  }

  /** Anything else is no byte. */
  lemma NotDigits(line: string, pos: nat)
    requires pos + 2 <= |line|
    requires line[pos] !in "0123456789ABCDEFabcdef" || line[pos + 1] !in "0123456789ABCDEFabcdef"
    ensures HexByte(line, pos) == -1
  {
    DigitInAlphabet(line[pos]);
    DigitInAlphabet(line[pos + 1]);
  }

  lemma DigitInAlphabet(c: char)
    ensures HexDigit(c) >= 0 ==> c in "0123456789ABCDEFabcdef"
  {
    var all := "0123456789ABCDEFabcdef";
    if '0' <= c <= '9' { assert all[c as int - '0' as int] == c; }
    else if 'A' <= c <= 'F' { assert all[c as int - 'A' as int + 10] == c; }
    else if 'a' <= c <= 'f' { assert all[c as int - 'a' as int + 16] == c; }
  }

  // ------------------------------------------------------- writing records

  function HexChar(d: nat): (c: char)
    requires d < 16
    ensures HexDigit(c) == d
  {
    "0123456789ABCDEF"[d]
  }

  function Digits(bytes: seq<nat>): (s: string)
    requires forall i :: 0 <= i < |bytes| ==> bytes[i] < 256
    ensures |s| == 2 * |bytes|
  {
    if bytes == [] then ""
    else
      var n := |bytes| - 1;
      Digits(bytes[..n]) + [HexChar(bytes[n] / 16), HexChar(bytes[n] % 16)]
  }

  lemma {:induction false} DigitsAreBytes(head: string, bytes: seq<nat>, tail: string)
    requires forall i :: 0 <= i < |bytes| ==> bytes[i] < 256
    ensures HexBytes(head + Digits(bytes) + tail, |head|, |bytes|) == Some(bytes)
  {
    hide HexChar, HexByte;
    if bytes != [] {
      var n := |bytes| - 1;
      var front, pair := Digits(bytes[..n]), [HexChar(bytes[n] / 16), HexChar(bytes[n] % 16)];
      DigitsAreBytes(head, bytes[..n], pair + tail);
      PairIsByte(head + front, bytes[n], tail);
      Regrouped(head, front, pair, tail);
      HexBytesSnoc(head + (front + pair) + tail, |head|, n, |head| + 2 * n);
      assert bytes[..n] + [bytes[n]] == bytes;
    }
  }

  lemma Regrouped(a: string, b: string, c: string, d: string)
    ensures a + (b + c) + d == a + b + (c + d) == a + b + c + d
  {
  }

  lemma PairIsByte(before: string, b: nat, after: string)
    requires b < 256
    ensures HexByte(before + [HexChar(b / 16), HexChar(b % 16)] + after, |before|) == b
  {
    hide HexChar, HexDigit;
    var line := before + [HexChar(b / 16), HexChar(b % 16)] + after;
    assert line[|before|] == HexChar(b / 16) && line[|before| + 1] == HexChar(b % 16);
  }

  predicate Writable(r: Record) {
    r.addr < 0x10000 && r.kind < 256 && |r.data| < 256 && forall i :: 0 <= i < |r.data| ==> r.data[i] < 256
  }

  /** The bytes of a record up to its checksum. */
  function Fields(r: Record): (b: seq<nat>)
    requires Writable(r)
    ensures |b| == 4 + |r.data| && forall i :: 0 <= i < |b| ==> b[i] < 256
  {
    [|r.data|, r.addr / 256, r.addr % 256, r.kind] + r.data
  }

  function Checksum(fields: seq<nat>): (c: nat)
    ensures c < 256
  {
    (256 - Sum(fields) % 256) % 256
  }

  /** A line of checked bytes; its second field says how many data bytes it has. */
  lemma LineReads(bytes: seq<nat>, tail: string)
    requires |bytes| >= 5 && |bytes| == 5 + bytes[0] && forall i :: 0 <= i < |bytes| ==> bytes[i] < 256
    ensures RecordOf(":" + Digits(bytes) + tail) ==
      if Sum(bytes) % 256 == 0 then Some(Record(256 * bytes[1] + bytes[2], bytes[3], bytes[4..4 + bytes[0]])) else None
  {
    hide HexByte, HexBytes, Sum, Digits;
    var line := ":" + Digits(bytes) + tail;
    DigitsAreBytes(":", bytes, tail);
    HexBytesAt(line, 1, |bytes|);
    var n := HexBytes(line, 1, |bytes|).value[0];
    assert HexByte(line, 1 + 2 * 0) == n;
    assert line[0] == ':' && |line| >= 11 && HexByte(line, 1) == bytes[0];
  }

  lemma ChecksumSumsToZero(fields: seq<nat>)
    ensures Sum(fields + [Checksum(fields)]) % 256 == 0
  {
    hide Sum;
    SumSnoc(fields, Checksum(fields));
    Complement(Sum(fields));
  }

  lemma Complement(n: nat)
    ensures (n + (256 - n % 256) % 256) % 256 == 0
  {
  }

  lemma OneByteOff(sum: nat, a: nat, b: nat)
    requires sum % 256 == 0 && a < 256 && b < 256 && a != b && a <= sum
    ensures (sum - a + b) % 256 != 0
  {
  }

  /** Reading back what was written, whatever follows on the line. */
  lemma RecordRoundTrip(r: Record, tail: string)
    requires Writable(r)
    ensures RecordOf(":" + Digits(Fields(r) + [Checksum(Fields(r))]) + tail) == Some(r)
  {
    hide RecordOf, Digits, Sum, Checksum;
    var f := Fields(r);
    var bytes := f + [Checksum(f)];
    ChecksumSumsToZero(f);
    LineReads(bytes, tail);
    assert bytes[4..4 + bytes[0]] == r.data;
  }

  lemma {:induction false} SumUpdate(bytes: seq<nat>, i: nat, b: nat)
    requires i < |bytes|
    ensures bytes[i] <= Sum(bytes) && Sum(bytes[i := b]) == Sum(bytes) - bytes[i] + b
  {
    var n := |bytes| - 1;
    if i < n {
      SumUpdate(bytes[..n], i, b);
      assert bytes[i := b][..n] == bytes[..n][i := b];
    } else {
      assert bytes[i := b][..n] == bytes[..n];
    }
  }

  /** A record in which one byte behind the length was misread is rejected. */
  lemma MisreadIsRejected(r: Record, i: nat, b: nat, tail: string)
    requires Writable(r) && 1 <= i < 5 + |r.data| && b < 256
    ensures var bytes := Fields(r) + [Checksum(Fields(r))];
      b != bytes[i] ==> RecordOf(":" + Digits(bytes[i := b]) + tail).None?
  {
    hide RecordOf, Digits, Sum, Checksum;
    var bytes := Fields(r) + [Checksum(Fields(r))];
    ChecksumSumsToZero(Fields(r));
    SumUpdate(bytes, i, b);
    if b != bytes[i] { OneByteOff(Sum(bytes), bytes[i], b); }
    LineReads(bytes[i := b], tail);
  }

  // ------------------------------------------------------ joining addresses

  /** Bitwise or, and bitwise and, of numbers. */
  function OrNat(u: nat, a: nat): nat {
    if u == 0 && a == 0 then 0 else (if u % 2 == 1 || a % 2 == 1 then 1 else 0) + 2 * OrNat(u / 2, a / 2)
  }

  function AndNat(u: nat, a: nat): nat {
    if u == 0 && a == 0 then 0 else (if u % 2 == 1 && a % 2 == 1 then 1 else 0) + 2 * AndNat(u / 2, a / 2)
  }

  /** The base is the sum of its operands exactly when they share no bit. */
  lemma {:induction false} OrIsSumIff(u: nat, a: nat)
    ensures OrNat(u, a) + AndNat(u, a) == u + a
    ensures OrNat(u, a) == u + a <==> AndNat(u, a) == 0
  {
    if u != 0 || a != 0 {
      OrIsSumIff(u / 2, a / 2);
    }
  }

  lemma {:induction false} AlignedSharesNothing(u: nat, a: nat, k: nat)
    requires u % Pow2(k) == 0 && a < Pow2(k)
    ensures AndNat(u, a) == 0
  {
    if k == 0 {
      ZeroSharesNothing(u);
    } else {
      HalveMod(u, Pow2(k - 1));
      AlignedSharesNothing(u / 2, a / 2, k - 1);
    }
  }

  lemma {:induction false} ZeroSharesNothing(u: nat)
    ensures AndNat(u, 0) == 0
  {
    if u != 0 { ZeroSharesNothing(u / 2); }
  }

  function Plus(u: nat, a: nat): nat { u + a }

  // ------------------------------------------------------------------ files

  datatype Placed = Placed(base: nat, data: seq<nat>)

  function Strip(line: string): string {
    if line != "" && line[|line| - 1] == '\r' then line[..|line| - 1] else line
  }

  function Ahead(p: Placed, rest: Result<seq<Placed>>): Result<seq<Placed>> {
    if rest.Ok? then Ok([p] + rest.value) else rest
  }

  /** The data records of a file, in order, up to its end-of-file record; `join` forms an address from the extended
      base and a record's own address. */
  function Records(lines: seq<string>, upper: nat, join: (nat, nat) -> nat): Result<seq<Placed>>
    decreases |lines|, 0
  {
    if lines == [] then Ok([])
    else
      var line, rest := Strip(lines[0]), lines[1..];
      if line == "" || line[0] != ':' then Records(rest, upper, join)
      else if RecordOf(line).None? then Err(BadRecord)
      else FromRecord(RecordOf(line).value, upper, rest, join)
  }

  /** The data records of a file from a given record on. */
  function FromRecord(r: Record, upper: nat, rest: seq<string>, join: (nat, nat) -> nat): Result<seq<Placed>>
    decreases |rest|, 1
  {
    if r.kind == 1 then Ok([])
    else if r.kind == 4 || r.kind == 2 then
      if |r.data| != 2 then Err(BadExtension) else Records(rest, (256 * r.data[0] + r.data[1]) * Scale(r.kind), join)
    else if r.kind == 0 then
      var base := join(upper, r.addr);
      if r.data != [] && base + |r.data| >= ADDRESSES then Err(OutOfRange)
      else if base + |r.data| > NorFlash.CAPACITY then Err(TooLarge)
      else Ahead(Placed(base, r.data), Records(rest, upper, join))
    else Records(rest, upper, join)
  }

  /** Linear bases count 64 KiB, segment bases 16 bytes. */
  function Scale(kind: nat): nat { if kind == 4 then 0x10000 else 16 }

  /** Every data record that counts shares no address bit with the base in force. */
  predicate Disjoint(lines: seq<string>, upper: nat) {
    if lines == [] then true
    else
      var line, rest := Strip(lines[0]), lines[1..];
      if line == "" || line[0] != ':' then Disjoint(rest, upper)
      else if RecordOf(line).None? then true
      else
        var r := RecordOf(line).value;
        if r.kind == 1 then true
        else if r.kind == 4 || r.kind == 2 then |r.data| == 2 ==>
          Disjoint(rest, (256 * r.data[0] + r.data[1]) * Scale(r.kind))
        else if r.kind == 0 then AndNat(upper, r.addr) == 0 && Disjoint(rest, upper)
        else Disjoint(rest, upper)
  }

  /** The file means what the standard says, base plus address, exactly when no record overlaps its base. */
  lemma {:induction false} AddressesAddUpIff(lines: seq<string>, upper: nat)
    requires Records(lines, upper, Plus).Ok?
    ensures Records(lines, upper, OrNat) == Records(lines, upper, Plus) <==> Disjoint(lines, upper)
    decreases |lines|
  {
    hide RecordOf, OrNat, AndNat, Strip;
    if lines != [] {
      var line, rest := Strip(lines[0]), lines[1..];
      if line == "" || line[0] != ':' {
        AddressesAddUpIff(rest, upper);
      } else {
        var r := RecordOf(line).value;
        if r.kind == 4 || r.kind == 2 {
          AddressesAddUpIff(rest, (256 * r.data[0] + r.data[1]) * Scale(r.kind));
        } else if r.kind != 1 {
          AddressesAddUpIff(rest, upper);
          OrIsSumIff(upper, r.addr);
          if r.kind == 0 {
            AheadCancels(Placed(Plus(upper, r.addr), r.data), Placed(OrNat(upper, r.addr), r.data),
                         Records(rest, upper, Plus), Records(rest, upper, OrNat));
          }
        }
      }
    }
  }

  lemma AheadCancels(p: Placed, q: Placed, x: Result<seq<Placed>>, y: Result<seq<Placed>>)
    requires x.Ok?
    ensures Ahead(p, x) == Ahead(q, y) <==> p == q && x == y
  {
    if y.Ok? {
      assert ([p] + x.value)[1..] == x.value && ([q] + y.value)[1..] == y.value;
      assert ([p] + x.value)[0] == p && ([q] + y.value)[0] == q;
    }
  }

  ghost predicate NoSegments(lines: seq<string>) {
    forall i :: 0 <= i < |lines| ==> var r := RecordOf(Strip(lines[i])); r.Some? ==> r.value.kind != 2
  }

  /** Files with linear bases only always satisfy the condition. */
  lemma {:induction false} LinearFilesAddUp(lines: seq<string>, upper: nat)
    requires NoSegments(lines) && upper % 0x10000 == 0
    ensures Disjoint(lines, upper)
    decreases |lines|
  {
    hide RecordOf, AndNat, Strip, Pow2;
    if lines != [] {
      var line, rest := Strip(lines[0]), lines[1..];
      assert NoSegments(rest);
      if line == "" || line[0] != ':' || RecordOf(line).None? {
        LinearFilesAddUp(rest, upper);
      } else {
        var r := RecordOf(line).value;
        if r.kind == 4 && |r.data| == 2 {
          LinearFilesAddUp(rest, (256 * r.data[0] + r.data[1]) * 0x10000);
        } else {
          LinearFilesAddUp(rest, upper);
          AddressFits(line);
          KnownPowers();
          AlignedSharesNothing(upper, r.addr, 16);
        }
      }
    }
  }

  lemma AddressFits(line: string)
    ensures RecordOf(line).Some? ==> RecordOf(line).value.addr < 0x10000
  {
    hide HexByte;
    if RecordOf(line).Some? {
      HexBytesAt(line, 1, 5 + HexByte(line, 1));
    }
  }

  /** A record as a line of a file with carriage returns. */
  function Line(r: Record): string
    requires Writable(r)
  {
    ":" + Digits(Fields(r) + [Checksum(Fields(r))]) + "\r"
  }

  lemma LineIsRecord(r: Record)
    requires Writable(r)
    ensures var line := Strip(Line(r)); line != "" && line[0] == ':' && RecordOf(line) == Some(r)
  {
    hide RecordOf, Digits, Checksum;
    RecordRoundTrip(r, "");
    var text := ":" + Digits(Fields(r) + [Checksum(Fields(r))]);
    assert text + "" == text;
    assert Strip(Line(r)) == text;
  }

  // ----------------------------------------------------------- writing files

  /** Data a file can place: in the flash, and within reach of a segment base where those are used. */
  predicate Storable(p: Placed, segmented: bool) {
    && |p.data| < 256 && (forall i :: 0 <= i < |p.data| ==> p.data[i] < 256)
    && p.base + |p.data| <= 0x100_0000 && (segmented ==> p.base < 0x10_0000)
  }

  /** The base record a block of data is written behind. */
  function BaseRecord(base: nat, segmented: bool): Record {
    if segmented then Record(0, 0x02, [base / 16 / 256, base / 16 % 256])
    else Record(0, 0x04, [base / 0x10000 / 256, base / 0x10000 % 256])
  }

  function DataRecord(p: Placed, segmented: bool): Record {
    Record(p.base % (if segmented then 16 else 0x10000), 0x00, p.data)
  }

  const START := Record(0, 0x05, [0, 0, 0, 0])

  const END_OF_FILE := Record(0, 0x01, [])

  lemma WritableBlock(p: Placed, segmented: bool)
    requires Storable(p, segmented)
    ensures Writable(BaseRecord(p.base, segmented)) && Writable(DataRecord(p, segmented))
  {
  }

  /** A file of base and data records, a start address, the end-of-file record and lines behind it. */
  function FileOf(blocks: seq<Placed>, segmented: bool, behind: seq<string>): seq<string>
    requires forall i :: 0 <= i < |blocks| ==> Storable(blocks[i], segmented)
  {
    if blocks == [] then [Line(START)] + ([Line(END_OF_FILE)] + behind)
    else
      WritableBlock(blocks[0], segmented);
      [Line(BaseRecord(blocks[0].base, segmented))]
      + ([Line(DataRecord(blocks[0], segmented))] + FileOf(blocks[1..], segmented, behind))
  }

  /** Every written file reads back as its blocks at their own addresses. */
  lemma {:induction false} FileRoundTrip(blocks: seq<Placed>, segmented: bool, behind: seq<string>, upper: nat)
    requires forall i :: 0 <= i < |blocks| ==> Storable(blocks[i], segmented)
    ensures Records(FileOf(blocks, segmented, behind), upper, OrNat) == Ok(blocks)
  {
    hide RecordOf, Strip, Line, OrNat, BaseRecord, DataRecord, Scale;
    if blocks == [] {
      LineThen(START, [Line(END_OF_FILE)] + behind, upper);
      LineThen(END_OF_FILE, behind, upper);
    } else {
      var p, rest := blocks[0], FileOf(blocks[1..], segmented, behind);
      var base, data := BaseRecord(p.base, segmented), DataRecord(p, segmented);
      BlockReads(p, segmented, rest, upper);
      LineThen(base, [Line(data)] + rest, upper);
      FileRoundTrip(blocks[1..], segmented, behind, p.base - data.addr);
      LineThen(data, rest, p.base - data.addr);
      assert [p] + blocks[1..] == blocks;
    }
  }

  lemma LineThen(r: Record, rest: seq<string>, upper: nat)
    requires Writable(r)
    ensures Records([Line(r)] + rest, upper, OrNat) == FromRecord(r, upper, rest, OrNat)
  {
    hide RecordOf, Strip, Line, OrNat, Scale, Writable;
    LineIsRecord(r);
    assert ([Line(r)] + rest)[1..] == rest;
  }

  lemma BlockReads(p: Placed, segmented: bool, rest: seq<string>, upper: nat)
    requires Storable(p, segmented)
    ensures var base, data := BaseRecord(p.base, segmented), DataRecord(p, segmented);
      && Writable(base) && Writable(data) && data.addr <= p.base
      && FromRecord(base, upper, [Line(data)] + rest, OrNat)
        == Records([Line(data)] + rest, p.base - data.addr, OrNat)
      && FromRecord(data, p.base - data.addr, rest, OrNat)
        == Ahead(p, Records(rest, p.base - data.addr, OrNat))
  {
    hide Line, OrNat, AndNat, Pow2, Records;
    var unit, k := if segmented then 16 else 0x10000, if segmented then 4 else 16;
    var high, low := p.base / unit, p.base % unit;
    assert p.base == high * unit + low;
    KnownPowers();
    DivModIs(high * unit, unit, high, 0);
    AlignedSharesNothing(high * unit, low, k);
    OrIsSumIff(high * unit, low);
  }

  const SEGMENT := Record(0, 2, [0, 1])

  const AT_SIXTEEN := Record(0x10, 0, [0xAB])

  /** A file the parser accepts in which an address is lost: a segment base of 16 and an offset of 16 place the byte
      at 16, where the standard says 32. */
  lemma OverlapLosesAddress()
    ensures Writable(SEGMENT) && Writable(AT_SIXTEEN)
    ensures var file := [Line(SEGMENT), Line(AT_SIXTEEN)];
      && !Disjoint(file, 0)
      && Records(file, 0, OrNat) == Ok([Placed(0x10, [0xAB])])
      && Records(file, 0, Plus) == Ok([Placed(0x20, [0xAB])])
  {
    hide RecordOf, Strip, Line, OrNat, AndNat;
    var file := [Line(SEGMENT), Line(AT_SIXTEEN)];
    LineIsRecord(SEGMENT);
    LineIsRecord(AT_SIXTEEN);
    SixteenOverlaps();
    assert file[1..] == [Line(AT_SIXTEEN)];
    SegmentThen(OrNat);
    SegmentThen(Plus);
    assert !Disjoint([Line(AT_SIXTEEN)], 0x10);
    assert SEGMENT.kind == 2 && (256 * SEGMENT.data[0] + SEGMENT.data[1]) * Scale(2) == 0x10;
    assert Disjoint(file, 0) == Disjoint(file[1..], 0x10);
  }

  lemma SegmentThen(join: (nat, nat) -> nat)
    requires Strip(Line(SEGMENT)) != "" && Strip(Line(SEGMENT))[0] == ':'
    requires RecordOf(Strip(Line(SEGMENT))) == Some(SEGMENT)
    requires Strip(Line(AT_SIXTEEN)) != "" && Strip(Line(AT_SIXTEEN))[0] == ':'
    requires RecordOf(Strip(Line(AT_SIXTEEN))) == Some(AT_SIXTEEN) && join(0x10, 0x10) < 0x100
    ensures Records([Line(SEGMENT), Line(AT_SIXTEEN)], 0, join) == Ok([Placed(join(0x10, 0x10), [0xAB])])
  {
    hide RecordOf, Strip, Line;
    var file := [Line(SEGMENT), Line(AT_SIXTEEN)];
    assert file[1..] == [Line(AT_SIXTEEN)] && file[1..][1..] == [];
    assert Records(file, 0, join) == FromRecord(SEGMENT, 0, file[1..], join) == Records(file[1..], 0x10, join);
    assert Records(file[1..], 0x10, join) == FromRecord(AT_SIXTEEN, 0x10, [], join);
    var p := Placed(join(0x10, 0x10), AT_SIXTEEN.data);
    assert FromRecord(AT_SIXTEEN, 0x10, [], join) == Ahead(p, Ok([]));
    assert [p] + [] == [p];
  }

  lemma SixteenOverlaps()
    ensures OrNat(0x10, 0x10) == 0x10 && AndNat(0x10, 0x10) == 0x10
  {
    assert OrNat(2, 2) == 2 && AndNat(2, 2) == 2;
    assert OrNat(4, 4) == 4 && AndNat(4, 4) == 4;
  }

  /** A data record that passes the capacity check on its 32-bit end is copied inside the buffer, grown to that end
      as the check allows, exactly when the end did not wrap. */
  lemma CopyStaysInsideIff(upper: nat, addr: nat, n: nat, size: nat)
    requires upper < ADDRESSES && addr < 0x1_0000 && n < 256 && size <= NorFlash.CAPACITY
    requires (OrNat(upper, addr) + n) % ADDRESSES <= NorFlash.CAPACITY
    ensures var base, end := OrNat(upper, addr), (OrNat(upper, addr) + n) % ADDRESSES;
      base + n <= (if end > size then end else size) <==> base + n < ADDRESSES
  {
    hide OrNat, Pow2;
    KnownPowers();
    JoinFits(upper, addr, 32);
    var base := OrNat(upper, addr);
    if base + n >= ADDRESSES {
      DivModIs(base + n, ADDRESSES, 1, base + n - ADDRESSES);
    } else {
      DivModIs(base + n, ADDRESSES, 0, base + n);
    }
  }

  /** A base built from 32-bit operands is a 32-bit number. */
  lemma {:induction false} JoinFits(u: nat, a: nat, k: nat)
    requires u < Pow2(k) && a < Pow2(k)
    ensures OrNat(u, a) < Pow2(k)
  {
    if k > 0 { JoinFits(u / 2, a / 2, k - 1); }
  }

  // ------------------------------------------------------------------ image

  /** The last record to cover an address decides its byte; uncovered bytes read as erased. */
  function ByteAt(recs: seq<Placed>, a: nat): nat {
    if recs == [] then 0xFF
    else
      var p := recs[|recs| - 1];
      if p.base <= a < p.base + |p.data| then p.data[a - p.base] else ByteAt(recs[..|recs| - 1], a)
  }

  /** The highest record end. */
  function End(recs: seq<Placed>): nat {
    if recs == [] then 0
    else
      var p, before := recs[|recs| - 1], End(recs[..|recs| - 1]);
      if p.base + |p.data| > before then p.base + |p.data| else before
  }

  ghost predicate IsImage(out: seq<nat>, recs: seq<Placed>) {
    |out| == End(recs) && forall a :: 0 <= a < |out| ==> out[a] == ByteAt(recs, a)
  }

  /** The last record that covers an address decides its byte. */
  lemma {:induction false} LastCoverDecides(recs: seq<Placed>, k: nat, a: nat)
    requires k < |recs| && recs[k].base <= a < recs[k].base + |recs[k].data|
    requires forall j :: k < j < |recs| ==> a < recs[j].base || recs[j].base + |recs[j].data| <= a
    ensures a < End(recs) && ByteAt(recs, a) == recs[k].data[a - recs[k].base]
  {
    if k < |recs| - 1 { LastCoverDecides(recs[..|recs| - 1], k, a); }
  }

  /** A byte no record covers reads as erased. */
  lemma {:induction false} UncoveredIsErased(recs: seq<Placed>, a: nat)
    requires forall j :: 0 <= j < |recs| ==> a < recs[j].base || recs[j].base + |recs[j].data| <= a
    ensures ByteAt(recs, a) == 0xFF
  {
    if recs != [] { UncoveredIsErased(recs[..|recs| - 1], a); }
  }

  /** An image ends where a record does. */
  lemma {:induction false} EndIsReached(recs: seq<Placed>)
    ensures End(recs) > 0 ==> exists k :: 0 <= k < |recs| && End(recs) == recs[k].base + |recs[k].data|
    ensures forall k :: 0 <= k < |recs| ==> recs[k].base + |recs[k].data| <= End(recs)
  {
    if recs != [] {
      var front := recs[..|recs| - 1];
      EndIsReached(front);
      forall k | 0 <= k < |recs| - 1 ensures recs[k].base + |recs[k].data| <= End(front) {
        assert front[k] == recs[k];
      }
    }
  }

  lemma {:induction false} PastTheEnd(recs: seq<Placed>, a: nat)
    requires a >= End(recs)
    ensures ByteAt(recs, a) == 0xFF
  {
    if recs != [] { PastTheEnd(recs[..|recs| - 1], a); }
  }

  function Grown(out: seq<nat>, n: nat): (r: seq<nat>)
    ensures |r| == if n > |out| then n else |out|
  {
    if n > |out| then out + seq(n - |out|, _ => 0xFF) else out
  }

  function Written(out: seq<nat>, p: Placed): (r: seq<nat>)
    requires p.base + |p.data| <= |out|
    ensures |r| == |out|
  {
    out[..p.base] + p.data + out[p.base + |p.data|..]
  }

  lemma StoreKeepsImage(out: seq<nat>, recs: seq<Placed>, p: Placed)
    requires IsImage(out, recs)
    ensures IsImage(Written(Grown(out, p.base + |p.data|), p), recs + [p])
  {
    var all := recs + [p];
    assert all[..|recs|] == recs;
    var out' := Written(Grown(out, p.base + |p.data|), p);
    forall a | 0 <= a < |out'| ensures out'[a] == ByteAt(all, a) {
      if a >= |out| { PastTheEnd(recs, a); }
    }
  }

  function Then(done: seq<Placed>, rest: Result<seq<Placed>>): Result<seq<Placed>> {
    if rest.Ok? then Ok(done + rest.value) else rest
  }

  lemma ThenAhead(done: seq<Placed>, p: Placed, rest: Result<seq<Placed>>)
    ensures Then(done, Ahead(p, rest)) == Then(done + [p], rest)
  {
    if rest.Ok? { assert done + ([p] + rest.value) == done + [p] + rest.value; }
  }

  lemma LineByLine(lines: seq<string>, i: nat, upper: nat)
    requires i < |lines|
    ensures var line, rest := Strip(lines[i]), lines[i + 1..];
      Records(lines[i..], upper, OrNat) ==
        if line == "" || line[0] != ':' then Records(rest, upper, OrNat)
        else if RecordOf(line).None? then Err(BadRecord)
        else FromRecord(RecordOf(line).value, upper, rest, OrNat)
  {
    hide RecordOf, OrNat, Strip, Scale;
    assert lines[i..][0] == lines[i] && lines[i..][1..] == lines[i + 1..];
  }

  /** Builds the image record by record. It is the overlay of the file's data records; every malformed record before
      the end of the file is an error. */
  method ParseMcsToImage(lines: seq<string>) returns (r: Result<seq<nat>>)
    ensures match Records(lines, 0, OrNat)
      case Err(e) => r == Err(e)
      case Ok(recs) => if End(recs) == 0 then r == Err(NoData) else r.Ok? && IsImage(r.value, recs)
  {
    hide RecordOf, OrNat, Strip, IsImage, ByteAt, Scale, Records;
    var upper: nat, out := 0, [];
    ghost var done: seq<Placed> := [];
    ImageOfNothing();
    var i := 0;
    var eof := false;
    assert lines[0..] == lines;
    NothingDone(Records(lines, 0, OrNat));
    while i < |lines| && !eof
      invariant 0 <= i <= |lines| && IsImage(out, done)
      invariant Records(lines, 0, OrNat) == if eof then Ok(done) else Then(done, Records(lines[i..], upper, OrNat))
      decreases |lines| - i, !eof
    {
      var line := Strip(lines[i]);
      LineByLine(lines, i, upper);
      ghost var rest := lines[i + 1..];
      if line == "" || line[0] != ':' {
        i := i + 1;
        continue;
      }
      var parsed := ParseMcsRecord(line);
      if parsed.Err? { return Err(BadRecord); }
      var rec := parsed.value;
      if rec.kind == 1 {
        assert done + [] == done;
        eof := true;
      } else if rec.kind == 4 || rec.kind == 2 {
        if |rec.data| != 2 { return Err(BadExtension); }
        upper := (256 * rec.data[0] + rec.data[1]) * Scale(rec.kind);
      } else if rec.kind == 0 {
        var base := OrNat(upper, rec.addr);
        if rec.data != [] && base + |rec.data| >= ADDRESSES { return Err(OutOfRange); }
        if base + |rec.data| > NorFlash.CAPACITY { return Err(TooLarge); }
        var p := Placed(base, rec.data);
        StoreKeepsImage(out, done, p);
        ThenAhead(done, p, Records(rest, upper, OrNat));
        out := Written(Grown(out, base + |rec.data|), p);
        done := done + [p];
      }
      i := i + 1;
    }
    assert lines[|lines|..] == [];
    NoLines(upper);
    assert done + [] == done;
    ImageLength(out, done);
    r := if out == [] then Err(NoData) else Ok(out);
  }

  lemma NoLines(upper: nat)
    ensures Records([], upper, OrNat) == Ok([])
  {
  }

  lemma NothingDone(rest: Result<seq<Placed>>)
    ensures Then([], rest) == rest
  {
    if rest.Ok? { assert [] + rest.value == rest.value; }
  }

  lemma ImageOfNothing()
    ensures IsImage([], [])
  {
  }

  lemma ImageLength(out: seq<nat>, recs: seq<Placed>)
    requires IsImage(out, recs)
    ensures |out| == End(recs)
  {
  }
}
