/** The instructions of a Sequence block. */
module SequenceBlock {
  import opened Sequence
  import opened Wrappers
  import opened SequenceArguments
  import opened SequenceRoundTrip

  /** The `instructions` entry of the block data. */
  datatype Instructions = Absent | Lines(lines: seq<string>) | Decoded(decoded: seq<Instruction>)

  datatype Parsed = AllParsed(decoded: seq<Instruction>) | Failed(line: nat, error: Error)

  /** The lines from `i` on; parsing stops at the first line that fails. */
  function ParseLines(read: Reader, schema: Schema, lines: seq<string>, i: nat): Parsed
    requires i <= |lines|
    decreases |lines| - i
  {
    if i == |lines| then AllParsed([])
    else
      var first := FromLine(read, schema, lines[i]);
      if first.Err? then Failed(i + 1, first.error)
      else
        var later := ParseLines(read, schema, lines, i + 1);
        if later.Failed? then later else AllParsed([first.value] + later.decoded)
  }

  function SerializeAll(decoded: seq<Instruction>): (lines: seq<string>)
    ensures |lines| == |decoded|
    ensures forall i :: 0 <= i < |lines| ==> lines[i] == ToLine(decoded[i])
  {
    seq(|decoded|, i requires 0 <= i < |decoded| => ToLine(decoded[i]))
  }

  class Block {
    var instructions: Instructions

    constructor (instructions: Instructions)
      ensures this.instructions == instructions
    {
      this.instructions := instructions;
    }

    /** Overwrites the lines with instructions, or leaves them when a line is invalid. */
    method Parse(read: Reader, schema: Schema) returns (r: Parsed)
      requires !instructions.Decoded?
      modifies this
      ensures old(instructions).Absent? ==> r == AllParsed([]) && instructions == Absent
      ensures old(instructions).Lines? ==>
                && r == ParseLines(read, schema, old(instructions).lines, 0)
                && instructions == if r.AllParsed? then Decoded(r.decoded) else old(instructions)
    {
      hide FromLine;
      r := AllParsed([]);
      if instructions.Lines? {
        var lines := instructions.lines;
        for i := 0 to |lines|
          invariant instructions == old(instructions) && r.AllParsed?
          invariant ParseLines(read, schema, lines, 0) == Behind(r.decoded, ParseLines(read, schema, lines, i))
        {
          var d := FromLine(read, schema, lines[i]);
          if d.Err? {
            return Failed(i + 1, d.error);
          }
          BehindBoth(r.decoded, d.value, ParseLines(read, schema, lines, i + 1));
          r := AllParsed(r.decoded + [d.value]);
        }
        instructions := Decoded(r.decoded);
      }
    }

    method Serialize()
      requires !instructions.Lines?
      modifies this
      ensures instructions ==
              if old(instructions).Decoded? then Lines(SerializeAll(old(instructions).decoded)) else Absent
    {
      if instructions.Decoded? {
        var lines: seq<string> := [];
        for i := 0 to |instructions.decoded|
          invariant instructions == old(instructions)
          invariant |lines| == i && forall j :: 0 <= j < i ==> lines[j] == ToLine(instructions.decoded[j])
        {
          var line := PrintLine(instructions.decoded[i]);
          lines := lines + [line];
        }
        assert lines == SerializeAll(instructions.decoded);
        instructions := Lines(lines);
      }
    }
  }

  function Behind(earlier: seq<Instruction>, later: Parsed): Parsed {
    if later.Failed? then later else AllParsed(earlier + later.decoded)
  }

  lemma BehindBoth(earlier: seq<Instruction>, d: Instruction, later: Parsed)
    ensures Behind(earlier, Behind([d], later)) == Behind(earlier + [d], later)
  {
    if later.AllParsed? {
      assert earlier + ([d] + later.decoded) == earlier + [d] + later.decoded;
    }
  }

  lemma {:induction false} ParsedLines(read: Reader, schema: Schema, lines: seq<string>, i: nat,
                                       decoded: seq<Instruction>)
    requires i <= |lines| == |decoded|
    ensures ParseLines(read, schema, lines, i) == AllParsed(decoded[i..]) <==>
            forall k :: i <= k < |lines| ==> FromLine(read, schema, lines[k]) == Ok(decoded[k])
    decreases |lines| - i
  {
    hide FromLine;
    if i < |lines| {
      ParsedLines(read, schema, lines, i + 1, decoded);
      assert decoded[i..] == [decoded[i]] + decoded[i + 1..];
      var r, later := ParseLines(read, schema, lines, i), ParseLines(read, schema, lines, i + 1);
      if r == AllParsed(decoded[i..]) {
        assert r.decoded[0] == decoded[i];
        assert later.decoded == r.decoded[1..] == decoded[i + 1..];
      }
    }
  }

  /** Parsing fails at the first line that is refused, and reports its number. */
  lemma {:induction false} FailureExactly(read: Reader, schema: Schema, lines: seq<string>, i: nat, n: nat, e: Error)
    requires i <= |lines|
    ensures ParseLines(read, schema, lines, i) == Failed(n, e) <==>
            && i < n <= |lines| && FromLine(read, schema, lines[n - 1]) == Err(e)
            && forall k :: i <= k < n - 1 ==> FromLine(read, schema, lines[k]).Ok?
    decreases |lines| - i
  {
    hide FromLine;
    if i < |lines| {
      FailureExactly(read, schema, lines, i + 1, n, e);
    }
  }

  /** `parse` undoes `serialize` exactly if every instruction is well-formed. */
  lemma BlockRoundTrip(read: Reader, schema: Schema, decoded: seq<Instruction>)
    requires ReadsPrinted(read) && forall i :: 0 <= i < |decoded| ==> IsInstruction(decoded[i])
    requires IsSchema(schema)
    ensures ParseLines(read, schema, SerializeAll(decoded), 0) == AllParsed(decoded) <==>
            forall i :: 0 <= i < |decoded| ==> WellFormed(schema, decoded[i])
  {
    hide FromLine, ToLine, WellFormed;
    ParsedLines(read, schema, SerializeAll(decoded), 0, decoded);
    assert decoded[0..] == decoded;
    forall i | 0 <= i < |decoded|
      ensures FromLine(read, schema, SerializeAll(decoded)[i]) == Ok(decoded[i]) <==> WellFormed(schema, decoded[i])
    {
      RoundTripExactly(read, schema, decoded[i]);
    }
  }
}
