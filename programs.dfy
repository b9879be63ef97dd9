/** Parsing a whole program text into its numbered instructions. */
module Programs {
  import opened Types
  import opened Instructions
  import RoundTrip

  /** The numbering loop of `parseProgram` over the first `n` lines, for a
      line parser `parse`: a line the parser rejects is dropped, an accepted
      one is appended under the next id, starting from 1. */
  function ParseLinesWith(parse: (string, int) -> Option<Instruction>, lines: seq<string>, n: nat): (r: seq<Instruction>)
    requires n <= |lines|
    ensures |r| <= n
  {
    if n == 0 then []
    else
      var before := ParseLinesWith(parse, lines, n - 1);
      match parse(lines[n - 1], |before| + 1)
      case Some(instr) => before + [instr]
      case None => before
  }

  /** One more line: it is appended under the next id when it parses. */
  lemma ParseLinesStep(parse: (string, int) -> Option<Instruction>, lines: seq<string>, n: nat, id: int)
    requires n < |lines| && id == |ParseLinesWith(parse, lines, n)| + 1
    ensures ParseLinesWith(parse, lines, n + 1) ==
      if parse(lines[n], id).Some? then ParseLinesWith(parse, lines, n) + [parse(lines[n], id).value]
      else ParseLinesWith(parse, lines, n)
  {
  }

  /** A parser that stamps the id it is given numbers the program 1, 2, ... */
  lemma {:induction false} ParseLinesIds(parse: (string, int) -> Option<Instruction>, lines: seq<string>, n: nat)
    requires n <= |lines|
    requires forall l, id :: parse(l, id).Some? ==> parse(l, id).value.id == id
    ensures forall k :: 0 <= k < |ParseLinesWith(parse, lines, n)| ==> ParseLinesWith(parse, lines, n)[k].id == k + 1
  {
    if n > 0 {
      ParseLinesIds(parse, lines, n - 1);
    }
  }

  /** The parsed program is the accepted lines, in order: `source` maps
      positions to strictly increasing line numbers, line `source[k]` is
      accepted as element `k` under id `k + 1`, and every other line is
      rejected. */
  lemma {:induction false} ParseLinesSources(parse: (string, int) -> Option<Instruction>, lines: seq<string>, n: nat)
    returns (source: seq<nat>)
    requires n <= |lines|
    requires forall l, a, b :: parse(l, a).Some? == parse(l, b).Some?
    ensures |source| == |ParseLinesWith(parse, lines, n)|
    ensures forall k :: 0 <= k < |source| ==>
      source[k] < n && parse(lines[source[k]], k + 1) == Some(ParseLinesWith(parse, lines, n)[k])
    ensures forall k1, k2 :: 0 <= k1 < k2 < |source| ==> source[k1] < source[k2]
    ensures forall j, id :: 0 <= j < n && j !in source ==> parse(lines[j], id).None?
  {
    if n == 0 {
      source := [];
    } else {
      var before := ParseLinesSources(parse, lines, n - 1);
      var r := ParseLinesWith(parse, lines, n - 1);
      if parse(lines[n - 1], |r| + 1).Some? {
        source := before + [n - 1];
      } else {
        source := before;
      }
      forall j, id | 0 <= j < n && j !in source
        ensures parse(lines[j], id).None?
      {
        if j < n - 1 {
          assert j !in before;
        }
      }
    }
  }

  /** The lines of a program text. */
  function Lines(programText: string): seq<string>
  {
    Split(programText, '\n')
  }

  /** The `for (const line of lines)` loop of `parseProgram`: parse every
      line, keep the valid ones numbered 1, 2, ... */
  method ParseEachLine(lines: seq<string>) returns (instructions: seq<Instruction>)
    ensures instructions == ParseLinesWith(ParseInstruction, lines, |lines|)
  {
    instructions := [];
    var id := 1;
    var n := 0;
    while n < |lines|
      invariant 0 <= n <= |lines|
      invariant instructions == ParseLinesWith(ParseInstruction, lines, n)
      invariant id == |instructions| + 1
    {
      var instruction := ParseInstruction(lines[n], id);
      ParseLinesStep(ParseInstruction, lines, n, id);
      if instruction.Some? {
        instructions := instructions + [instruction.value];
        id := id + 1;
      }
      n := n + 1;
    }
  }

  /** `parseProgram`: split the text on '\n' and number its valid lines. */
  method ParseProgram(programText: string) returns (instructions: seq<Instruction>)
    ensures instructions == ParseLinesWith(ParseInstruction, Lines(programText), |Lines(programText)|)
  {
    var lines := Split(programText, '\n');
    instructions := ParseEachLine(lines);
  }

  /** What `parseProgram` returns for the lines of a text: the valid lines
      in order, numbered by their position from 1, every other line
      invalid. */
  lemma ParsedProgramSources(lines: seq<string>) returns (source: seq<nat>)
    ensures var prog := ParseLinesWith(ParseInstruction, lines, |lines|);
      && |source| == |prog|
      && (forall k :: 0 <= k < |prog| ==>
            prog[k].id == k + 1
            && source[k] < |lines| && ParseInstruction(lines[source[k]], k + 1) == Some(prog[k]))
      && (forall k1, k2 :: 0 <= k1 < k2 < |source| ==> source[k1] < source[k2])
      && (forall j, id :: 0 <= j < |lines| && j !in source ==> ParseInstruction(lines[j], id).None?)
  {
    forall l, a, b ensures ParseInstruction(l, a).Some? == ParseInstruction(l, b).Some? {
      ParseValidityIgnoresId(l, a, b);
    }
    ParseLinesIds(ParseInstruction, lines, |lines|);
    source := ParseLinesSources(ParseInstruction, lines, |lines|);
  }

  /** Whatever holds of every instruction the parser can produce holds of
      every instruction of the program. */
  lemma {:induction false} ParseLinesAll(parse: (string, int) -> Option<Instruction>, P: Instruction -> bool,
                                         lines: seq<string>, n: nat)
    requires n <= |lines|
    requires forall l, id :: parse(l, id).Some? ==> P(parse(l, id).value)
    ensures forall k :: 0 <= k < |ParseLinesWith(parse, lines, n)| ==> P(ParseLinesWith(parse, lines, n)[k])
  {
    if n > 0 {
      ParseLinesAll(parse, P, lines, n - 1);
    }
  }

  /** Every instruction of a parsed program is decoded: its registers fit
      its operation class and no timing stamp is set. */
  lemma ParsedProgramDecoded(lines: seq<string>)
    ensures var prog := ParseLinesWith(ParseInstruction, lines, |lines|);
      forall k :: 0 <= k < |prog| ==> Decoded(prog[k])
  {
    forall l, id | ParseInstruction(l, id).Some? ensures Decoded(ParseInstruction(l, id).value) {
      RoundTrip.ParsedIsDecoded(l, id);
    }
    ParseLinesAll(ParseInstruction, Decoded, lines, |lines|);
  }
}
