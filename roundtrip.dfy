/** The round trip between a decoded instruction and its textual form. */
module RoundTrip {
  import opened Types
  import opened Instructions

  /** What a successful parse produces: a decoded instruction carrying the
      given id, whose fields come from the four tokens of the line. */
  lemma ParsedIsDecoded(line: string, id: int)
    requires ParseInstruction(line, id).Some?
    ensures Decoded(ParseInstruction(line, id).value)
  {
    DecodeTokensSpec(Tokens(CleanLine(line)), id);
  }

  /** The characters a formatted mnemonic or register is made of. */
  predicate PlainChar(c: char)
  {
    'A' <= c <= 'Z' || '0' <= c <= '9' || c == '.'
  }

  /** Text made of such characters has no white space, no ',' and no ';',
      and upper-casing keeps it. */
  lemma {:induction false} PlainText(s: string)
    requires forall k :: 0 <= k < |s| ==> PlainChar(s[k])
    ensures NoSpace(s) && ',' !in s && ';' !in s
    ensures ToUpper(s) == s
  {
    if s != [] {
      var t := s[1..];
      assert forall k :: 0 <= k < |t| ==> t[k] == s[k + 1];
      PlainText(t);
      assert s == [s[0]] + t;
    }
  }

  /** A valid register is plain text. */
  lemma ValidRegisterPlain(op: Op, reg: string)
    requires IsValidRegister(op, reg)
    ensures reg != [] && NoSpace(reg) && ',' !in reg && ';' !in reg
    ensures ToUpper(reg) == reg
  {
    assert forall k :: 0 <= k < |reg| ==> PlainChar(reg[k]);
    PlainText(reg);
  }

  /** A mnemonic is plain text and names its own operation. */
  lemma MnemonicPlain(op: Op)
    ensures NoSpace(Mnemonic(op)) && ';' !in Mnemonic(op) && ToUpper(Mnemonic(op)) == Mnemonic(op)
    ensures OpFromMnemonic(Mnemonic(op)) == Some(op)
  {
    var m := Mnemonic(op);
    assert forall k :: 0 <= k < |m| ==> PlainChar(m[k]);
    PlainText(m);
  }

  /** The shape `formatInstruction` writes: four words, a space after the
      first and ", " between the others. */
  function FourWords(m: string, a: string, b: string, c: string): string
  {
    m + ([' '] + ((a + [',']) + ([' '] + ((b + [',']) + ([' '] + c)))))
  }

  /** Four words without white space or ';' survive comment stripping and
      trimming unchanged. */
  lemma CleanFourWords(m: string, a: string, b: string, c: string)
    requires m != [] && c != []
    requires NoSpace(m) && NoSpace(c)
    requires ';' !in m && ';' !in a && ';' !in b && ';' !in c
    ensures CleanLine(FourWords(m, a, b, c)) == FourWords(m, a, b, c)
  {
    var f := FourWords(m, a, b, c);
    assert ';' !in f;
    SplitNoSeparator(f, ';');
    assert f[0] == m[0];
    assert f[|f| - 1] == c[|c| - 1];
    TrimUnchanged(f);
  }

  /** A space, a word, then more text: the word is the first token. */
  lemma TokensSpaceWord(w: string, rest: string)
    requires w != [] && NoSpace(w)
    requires rest == [] || IsSpace(rest[0])
    ensures Tokens([' '] + (w + rest)) == [w] + Tokens(rest)
  {
    TokensSkipSpace(' ', w + rest);
    TokensWord(w, rest);
  }

  /** Four words without white space tokenize as those words, the first two
      operands keeping the comma written after them. */
  lemma TokensFourWords(m: string, a: string, b: string, c: string)
    requires m != [] && a != [] && b != [] && c != []
    requires NoSpace(m) && NoSpace(a) && NoSpace(b) && NoSpace(c)
    ensures Tokens(FourWords(m, a, b, c)) == [m, a + ",", b + ",", c]
  {
    var d, s1 := a + [','], b + [','];
    assert NoSpace(d) && NoSpace(s1);
    var t3 := [' '] + c;
    var t2 := [' '] + (s1 + t3);
    var t1 := [' '] + (d + t2);
    assert c + [] == c;
    TokensSpaceWord(c, []);
    assert Tokens(t3) == [c];
    TokensSpaceWord(s1, t3);
    assert Tokens(t2) == [s1, c];
    TokensSpaceWord(d, t2);
    assert Tokens(t1) == [d, s1, c];
    TokensWord(m, t1);
    assert [m] + Tokens(t1) == [m] + [d, s1, c];
  }

  /** `formatInstruction` writes the four-word shape. */
  lemma FormatIsFourWords(i: Instruction)
    ensures FormatInstruction(i) == FourWords(Mnemonic(i.op), i.dest, i.src1, i.src2)
  {
    var m, a, b, c := Mnemonic(i.op), i.dest, i.src1, i.src2;
    calc {
      FormatInstruction(i);
      m + " " + a + ", " + b + ", " + c;
      { assert ", " == [','] + [' ']; }
      m + [' '] + a + ([','] + [' ']) + b + ([','] + [' ']) + c;
      m + ([' '] + ((a + [',']) + ([' '] + ((b + [',']) + ([' '] + c)))));
    }
  }

  /** Formatting a decoded instruction and parsing the text back, under the
      same id, gives the instruction back. */
  lemma FormatThenParse(i: Instruction)
    requires Decoded(i)
    ensures ParseInstruction(FormatInstruction(i), i.id) == Some(i)
  {
    var m := Mnemonic(i.op);
    MnemonicPlain(i.op);
    ValidRegisterPlain(i.op, i.dest);
    ValidRegisterPlain(i.op, i.src1);
    ValidRegisterPlain(i.op, i.src2);
    FormatIsFourWords(i);
    CleanFourWords(m, i.dest, i.src1, i.src2);
    TokensFourWords(m, i.dest, i.src1, i.src2);
    var ts := [m, i.dest + ",", i.src1 + ",", i.src2];
    RemoveCommasAppend(i.dest);
    RemoveCommasAppend(i.src1);
    RemoveCommasSpec(i.src2);
    assert DecodeTokens(ts, i.id) == Some(i);
  }

  lemma RemoveCommasAppend(s: string)
    requires ',' !in s
    ensures RemoveCommas(s + ",") == s
  {
    if s == [] {
      assert s + "," == [','];
    } else {
      assert (s + ",")[1..] == s[1..] + ",";
      assert ',' !in s[1..];
      RemoveCommasAppend(s[1..]);
      assert s == [s[0]] + s[1..];
    }
  }

  /** Any instruction the parser produced survives formatting and parsing
      again with the same id. */
  lemma ParseFormatRoundTrip(line: string, id: int)
    requires ParseInstruction(line, id).Some?
    ensures ParseInstruction(FormatInstruction(ParseInstruction(line, id).value), id) == ParseInstruction(line, id)
  {
    ParsedIsDecoded(line, id);
    FormatThenParse(ParseInstruction(line, id).value);
  }
}
