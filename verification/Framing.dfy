/** Cutting a byte stream into self-delimiting commands, for any parser of one command. */
module Framing {
  import opened Bytes

  datatype Parsed<+C> = Malformed | Parsed(command: C, used: nat)

  /** The verdict on a command depends on its own bytes only. */
  ghost predicate SelfDelimiting<C(!new)>(parse: seq<byte> -> Parsed<C>) {
    forall p, q :: parse(p).Parsed? ==> 0 < parse(p).used <= |p| && parse(p + q) == parse(p)
  }

  /** The commands in a whole buffer; None when some command is malformed or cut short. */
  function ParseAll<C>(parse: seq<byte> -> Parsed<C>, p: seq<byte>): Option<seq<C>>
    decreases |p|
  {
    if p == [] then Some([])
    else
      var head := parse(p);
      if head.Malformed? || head.used == 0 || head.used > |p| then None
      else
        match ParseAll(parse, p[head.used..])
        case None => None
        case Some(cs) => Some([head.command] + cs)
  }

  lemma ParseSingle<C>(parse: seq<byte> -> Parsed<C>, p: seq<byte>, c: C)
    requires p != [] && parse(p) == Parsed(c, |p|)
    ensures ParseAll(parse, p) == Some([c])
  {
    assert p[|p|..] == [];
    assert ParseAll(parse, p[|p|..]) == Some([]);
    assert [c] + [] == [c];
  }

  /** Parsing distributes over concatenation. */
  lemma {:induction false} ParseAppend<C(!new)>(parse: seq<byte> -> Parsed<C>, p: seq<byte>, q: seq<byte>)
    requires SelfDelimiting(parse) && ParseAll(parse, p).Some? && ParseAll(parse, q).Some?
    ensures ParseAll(parse, p + q) == Some(ParseAll(parse, p).value + ParseAll(parse, q).value)
    decreases |p|
  {
    if p == [] {
      assert p + q == q;
      assert [] + ParseAll(parse, q).value == ParseAll(parse, q).value;
    } else {
      var head := parse(p);
      assert parse(p + q) == head;
      ParseAppend(parse, p[head.used..], q);
      assert (p + q)[head.used..] == p[head.used..] + q;
      var rest, qs := ParseAll(parse, p[head.used..]).value, ParseAll(parse, q).value;
      assert [head.command] + (rest + qs) == ([head.command] + rest) + qs;
    }
  }
}
