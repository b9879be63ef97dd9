/** The instruction parser: program text to decoded instructions, the
    display format, and the operation-class predicates. JavaScript's
    `split`, `trim`, `toUpperCase`, `includes` and the line pattern
    `OP DEST, SRC1, SRC2` are written out as functions on `seq<char>`. */
module Instructions {
  import opened Types

  /** The mnemonics the parser accepts, in the order the source lists them. */
  const ValidOps: seq<Op> := [AddD, SubD, MulD, DivD, Add, Sub, Mul, Div]

  // ---------------------------------------------------------------------
  // String primitives

  /** JavaScript white space: the characters `\s` matches and `trim` removes. */
  predicate IsSpace(c: char)
  {
    c == '\t' || c == '\n' || c == '\U{000B}' || c == '\U{000C}' || c == '\r' || c == ' '
    || c == '\U{00A0}' || c == '\U{1680}' || ('\U{2000}' <= c <= '\U{200A}')
    || c == '\U{2028}' || c == '\U{2029}' || c == '\U{202F}' || c == '\U{205F}'
    || c == '\U{3000}' || c == '\U{FEFF}'
  }

  predicate NoSpace(s: string)
  {
    forall k :: 0 <= k < |s| ==> !IsSpace(s[k])
  }

  /** Length of the prefix of `s` that does not contain `sep`. */
  function SegmentLen(s: string, sep: char): (n: nat)
    ensures n <= |s|
  {
    if s == [] || s[0] == sep then 0 else 1 + SegmentLen(s[1..], sep)
  }

  /** The segment stops at the first separator, or at the end. */
  lemma {:induction false} SegmentLenSpec(s: string, sep: char)
    ensures forall k :: 0 <= k < SegmentLen(s, sep) ==> s[k] != sep
    ensures SegmentLen(s, sep) < |s| ==> s[SegmentLen(s, sep)] == sep
  {
    if s != [] && s[0] != sep {
      SegmentLenSpec(s[1..], sep);
    }
  }

  /** `s.split(sep)` for a one-character separator. */
  function Split(s: string, sep: char): (parts: seq<string>)
    ensures |parts| >= 1
    decreases |s|
  {
    var n := SegmentLen(s, sep);
    if n == |s| then [s] else [s[..n]] + Split(s[n + 1..], sep)
  }

  /** No piece of a split contains the separator. */
  lemma {:induction false} SplitPieces(s: string, sep: char)
    ensures forall k :: 0 <= k < |Split(s, sep)| ==> sep !in Split(s, sep)[k]
    decreases |s|
  {
    var n := SegmentLen(s, sep);
    SegmentLenSpec(s, sep);
    if n < |s| {
      SplitPieces(s[n + 1..], sep);
    }
  }

  /** Joining the pieces of a split with the separator gives back the text. */
  lemma {:induction false} SplitJoin(s: string, sep: char)
    ensures Join(Split(s, sep), sep) == s
    decreases |s|
  {
    var n := SegmentLen(s, sep);
    if n < |s| {
      SegmentLenSpec(s, sep);
      SplitJoin(s[n + 1..], sep);
      assert s == s[..n] + [sep] + s[n + 1..];
    }
  }

  function Join(parts: seq<string>, sep: char): string
  {
    if parts == [] then [] else if |parts| == 1 then parts[0]
    else parts[0] + [sep] + Join(parts[1..], sep)
  }

  /** A text with no separator splits into itself alone. */
  lemma {:induction false} SplitNoSeparator(s: string, sep: char)
    requires sep !in s
    ensures Split(s, sep) == [s]
  {
    SegmentLenSpec(s, sep);
  }

  /** `s.trimStart()`. */
  function TrimStart(s: string): (r: string)
    ensures |r| <= |s|
    ensures r == [] || !IsSpace(r[0])
  {
    if s != [] && IsSpace(s[0]) then TrimStart(s[1..]) else s
  }

  /** `trimStart` removes exactly the leading white space. */
  lemma {:induction false} TrimStartSpec(s: string)
    ensures TrimStart(s) == s[|s| - |TrimStart(s)|..]
    ensures forall k :: 0 <= k < |s| - |TrimStart(s)| ==> IsSpace(s[k])
  {
    if s != [] && IsSpace(s[0]) {
      TrimStartSpec(s[1..]);
    }
  }

  /** `s.trimEnd()`. */
  function TrimEnd(s: string): (r: string)
    ensures |r| <= |s|
    ensures r == [] || !IsSpace(r[|r| - 1])
  {
    if s != [] && IsSpace(s[|s| - 1]) then TrimEnd(s[..|s| - 1]) else s
  }

  /** `trimEnd` removes exactly the trailing white space. */
  lemma {:induction false} TrimEndSpec(s: string)
    ensures TrimEnd(s) == s[..|TrimEnd(s)|]
    ensures forall k :: |TrimEnd(s)| <= k < |s| ==> IsSpace(s[k])
  {
    if s != [] && IsSpace(s[|s| - 1]) {
      TrimEndSpec(s[..|s| - 1]);
    }
  }

  /** `s.trim()`: no white space is left at either end. */
  function Trim(s: string): (r: string)
    ensures r == [] || (!IsSpace(r[0]) && !IsSpace(r[|r| - 1]))
  {
    TrimEndSpec(TrimStart(s));
    TrimEnd(TrimStart(s))
  }

  /** A text with no white space at either end is its own trim. */
  lemma TrimUnchanged(s: string)
    requires s != [] && !IsSpace(s[0]) && !IsSpace(s[|s| - 1])
    ensures Trim(s) == s
  {
    assert TrimStart(s) == s;
  }

  /** Length of the leading run of non-space characters. */
  function WordLen(s: string): (n: nat)
    ensures n <= |s|
  {
    if s == [] || IsSpace(s[0]) then 0 else 1 + WordLen(s[1..])
  }

  /** The run is maximal: it has no white space and stops at white space or
      at the end. */
  lemma {:induction false} WordLenSpec(s: string)
    ensures forall k :: 0 <= k < WordLen(s) ==> !IsSpace(s[k])
    ensures WordLen(s) < |s| ==> IsSpace(s[WordLen(s)])
  {
    if s != [] && !IsSpace(s[0]) {
      WordLenSpec(s[1..]);
    }
  }

  /** The maximal runs of non-space characters of `s`, left to right: the
      operands of the pattern `^(\S+)\s+(\S+),?\s+(\S+),?\s+(\S+)$`. */
  function Tokens(s: string): (ts: seq<string>)
    decreases |s|
  {
    var t := TrimStart(s);
    if t == [] then []
    else
      var n := WordLen(t);
      [t[..n]] + Tokens(t[n..])
  }

  /** Every token is a non-empty run without white space. */
  lemma {:induction false} TokensAreWords(s: string)
    ensures forall k :: 0 <= k < |Tokens(s)| ==> Tokens(s)[k] != [] && NoSpace(Tokens(s)[k])
    decreases |s|
  {
    var t := TrimStart(s);
    if t != [] {
      WordLenSpec(t);
      TokensAreWords(t[WordLen(t)..]);
    }
  }

  lemma {:induction false} WordLenOfWord(w: string, rest: string)
    requires NoSpace(w)
    requires rest == [] || IsSpace(rest[0])
    ensures WordLen(w + rest) == |w|
    decreases |w|
  {
    if w != [] {
      assert (w + rest)[1..] == w[1..] + rest;
      WordLenOfWord(w[1..], rest);
    } else {
      assert w + rest == rest;
    }
  }

  /** A word followed by white space or nothing tokenizes as that word
      followed by the tokens of the rest. */
  lemma TokensWord(w: string, rest: string)
    requires w != [] && NoSpace(w)
    requires rest == [] || IsSpace(rest[0])
    ensures Tokens(w + rest) == [w] + Tokens(rest)
  {
    assert TrimStart(w + rest) == w + rest;
    WordLenOfWord(w, rest);
    assert (w + rest)[..|w|] == w;
    assert (w + rest)[|w|..] == rest;
  }

  /** Leading white space does not change the tokens. */
  lemma TokensSkipSpace(c: char, rest: string)
    requires IsSpace(c)
    ensures Tokens([c] + rest) == Tokens(rest)
  {
    assert ([c] + rest)[1..] == rest;
  }

  /** `s.toUpperCase()` on one character. Only the characters whose upper
      case is a single ASCII letter are mapped; every other character is
      kept, which never changes the outcome of a parse (see README). */
  function UpperChar(c: char): char
  {
    if 'a' <= c <= 'z' then (c as int - 32) as char
    else if c == '\U{0131}' then 'I'
    else if c == '\U{017F}' then 'S'
    else c
  }

  function ToUpper(s: string): (r: string)
    ensures |r| == |s|
  {
    if s == [] then [] else [UpperChar(s[0])] + ToUpper(s[1..])
  }

  /** Upper-casing works character by character. */
  lemma {:induction false} ToUpperSpec(s: string)
    ensures forall k :: 0 <= k < |s| ==> ToUpper(s)[k] == UpperChar(s[k])
  {
    if s != [] {
      ToUpperSpec(s[1..]);
    }
  }

  /** `s.replace(/,/g, '')`. */
  function RemoveCommas(s: string): (r: string)
    ensures |r| <= |s|
  {
    if s == [] then []
    else if s[0] == ',' then RemoveCommas(s[1..])
    else [s[0]] + RemoveCommas(s[1..])
  }

  /** Comma removal works piece by piece: the result on a concatenation is
      the concatenation of the results. With its effect on one character
      (a comma goes, any other character stays), this fixes the function:
      every character but the commas is kept, in order. */
  lemma {:induction false} RemoveCommasConcat(a: string, b: string)
    ensures RemoveCommas(a + b) == RemoveCommas(a) + RemoveCommas(b)
    ensures RemoveCommas([',']) == [] && forall c :: c != ',' ==> RemoveCommas([c]) == [c]
  {
    if a != [] {
      assert (a + b)[1..] == a[1..] + b;
      RemoveCommasConcat(a[1..], b);
    } else {
      assert a + b == b;
    }
    assert [','][1..] == [];
    forall c | c != ','
      ensures RemoveCommas([c]) == [c]
    {
      assert [c][1..] == [];
    }
  }

  /** No comma is left, and the text is unchanged exactly when it had
      none. */
  lemma {:induction false} RemoveCommasSpec(s: string)
    ensures ',' !in RemoveCommas(s)
    ensures RemoveCommas(s) == s <==> ',' !in s
  {
    if s != [] {
      RemoveCommasSpec(s[1..]);
      assert s == [s[0]] + s[1..];
      if s[0] == ',' {
        assert |RemoveCommas(s)| < |s|;
      }
    }
  }

  /** `s.includes(sub)`. */
  predicate Contains(s: string, sub: string)
    decreases |s|
  {
    (|sub| <= |s| && s[..|sub|] == sub) || (s != [] && Contains(s[1..], sub))
  }

  lemma {:induction false} ContainsAt(s: string, sub: string, i: nat)
    requires i + |sub| <= |s| && s[i..i + |sub|] == sub
    ensures Contains(s, sub)
    decreases i
  {
    if i > 0 {
      assert s[1..][i - 1..i - 1 + |sub|] == s[i..i + |sub|];
      ContainsAt(s[1..], sub, i - 1);
    }
  }

  lemma {:induction false} NotContains(s: string, sub: string, j: nat)
    requires j < |sub| && sub[j] !in s
    ensures !Contains(s, sub)
    decreases |s|
  {
    if s != [] {
      assert sub[j] !in s[1..];
      NotContains(s[1..], sub, j);
      if |sub| <= |s| { assert s[..|sub|][j] == s[j]; }
    }
  }

  predicate IsDigit(c: char)
  {
    '0' <= c <= '9'
  }

  /** The rest of a register name matches `\d+`: at least one character
      after the first, all of them decimal digits. */
  predicate DigitsAfterFirst(s: string)
  {
    |s| >= 2 && forall k :: 1 <= k < |s| ==> IsDigit(s[k])
  }

  // ---------------------------------------------------------------------
  // Operation classes

  /** `isFpOperation`: the mnemonic contains ".D". */
  function IsFpOperation(op: Op): (b: bool)
    ensures b <==> (op == AddD || op == SubD || op == MulD || op == DivD)
  {
    MnemonicClasses(op);
    Contains(Mnemonic(op), ".D")
  }

  /** `isMultOperation`: the mnemonic contains "MUL" or "DIV". */
  function IsMultOperation(op: Op): (b: bool)
    ensures b <==> (op == MulD || op == DivD || op == Mul || op == Div)
  {
    MnemonicClasses(op);
    Contains(Mnemonic(op), "MUL") || Contains(Mnemonic(op), "DIV")
  }

  /** Which mnemonics contain ".D", "MUL" and "DIV". */
  lemma MnemonicClasses(op: Op)
    ensures Contains(Mnemonic(op), ".D") <==> (op == AddD || op == SubD || op == MulD || op == DivD)
    ensures Contains(Mnemonic(op), "MUL") <==> (op == MulD || op == Mul)
    ensures Contains(Mnemonic(op), "DIV") <==> (op == DivD || op == Div)
  {
    var m := Mnemonic(op);
    if |m| == 5 { ContainsAt(m, ".D", 3); } else { NotContains(m, ".D", 0); }
    if m[0] == 'M' { ContainsAt(m, "MUL", 0); } else { NotContains(m, "MUL", 0); }
    if m[0] == 'D' { ContainsAt(m, "DIV", 0); } else { NotContains(m, "DIV", 2); }
  }

  /** The operation classes agree with the unit table: an operation goes to a
      floating-point unit exactly when it is a floating-point operation, and
      to a multiply unit exactly when it is a multiply or divide. */
  lemma UnitAgreesWithClass(op: Op)
    ensures (OpToFunctionalUnit(op) == FpAdd || OpToFunctionalUnit(op) == FpMult) <==> IsFpOperation(op)
    ensures (OpToFunctionalUnit(op) == FpMult || OpToFunctionalUnit(op) == IntMult) <==> IsMultOperation(op)
  {
  }

  /** `VALID_OPS.includes(s)`: the operation a text names, if any. */
  function OpFromMnemonic(s: string): (r: Option<Op>)
    ensures r.Some? ==> Mnemonic(r.value) == s
  {
    if s == "ADD.D" then Some(AddD)
    else if s == "SUB.D" then Some(SubD)
    else if s == "MUL.D" then Some(MulD)
    else if s == "DIV.D" then Some(DivD)
    else if s == "ADD" then Some(Add)
    else if s == "SUB" then Some(Sub)
    else if s == "MUL" then Some(Mul)
    else if s == "DIV" then Some(Div)
    else None
  }

  /** The eight accepted mnemonics are exactly the operations' names. */
  lemma OpFromMnemonicSpec(s: string)
    ensures OpFromMnemonic(s).Some? ==> OpFromMnemonic(s).value in ValidOps
    ensures OpFromMnemonic(s).None? <==> forall op :: Mnemonic(op) != s
    ensures forall op :: OpFromMnemonic(Mnemonic(op)) == Some(op)
  {
  }

  // ---------------------------------------------------------------------
  // Parsing

  /** `isValidRegister`: "F" then digits for a ".D" operation, "R" then
      digits otherwise. */
  predicate IsValidRegister(op: Op, reg: string)
  {
    var isFpOp := IsFpOperation(op);
    var isFpReg := |reg| > 0 && reg[0] == 'F';
    var isIntReg := |reg| > 0 && reg[0] == 'R';
    if isFpOp then isFpReg && DigitsAfterFirst(reg)
    else isIntReg && DigitsAfterFirst(reg)
  }

  /** What a valid register looks like, stated without the ".D" test. */
  lemma ValidRegisterShape(op: Op, reg: string)
    ensures IsValidRegister(op, reg) <==>
      (DigitsAfterFirst(reg) && reg[0] == (if IsFpOperation(op) then 'F' else 'R'))
  {
  }

  /** An instruction the parser can produce: registers valid for its
      operation class and every timing stamp unset. */
  predicate Decoded(i: Instruction)
  {
    IsValidRegister(i.op, i.dest) && IsValidRegister(i.op, i.src1) && IsValidRegister(i.op, i.src2)
    && i.issuedAt.None? && i.execStartAt.None? && i.execEndAt.None? && i.writeAt.None?
  }

  /** The text of a line before its first ';', with white space trimmed. */
  function CleanLine(line: string): string
  {
    Trim(Split(line, ';')[0])
  }

  /** The four tokens decoded: the operation from the upper-cased first
      token, each register from a token with its commas removed and upper-cased. */
  function DecodeTokens(ts: seq<string>, id: int): (r: Option<Instruction>)
    requires |ts| == 4
    ensures r.Some? ==> r.value.id == id
  {
    match OpFromMnemonic(ToUpper(ts[0]))
    case None => None
    case Some(op) =>
      var dest := ToUpper(RemoveCommas(ts[1]));
      var src1 := ToUpper(RemoveCommas(ts[2]));
      var src2 := ToUpper(RemoveCommas(ts[3]));
      if !IsValidRegister(op, dest) || !IsValidRegister(op, src1) || !IsValidRegister(op, src2) then None
      else Some(Instruction(id, op, dest, src1, src2, None, None, None, None))
  }

  /** Four tokens decode exactly when the first names one of the eight
      operations and the other three, without commas and upper-cased, are
      registers of that operation's class; the result is then a decoded
      instruction with those fields. */
  lemma DecodeTokensSpec(ts: seq<string>, id: int)
    requires |ts| == 4
    ensures DecodeTokens(ts, id).Some? <==>
      (OpFromMnemonic(ToUpper(ts[0])).Some?
       && IsValidRegister(OpFromMnemonic(ToUpper(ts[0])).value, ToUpper(RemoveCommas(ts[1])))
       && IsValidRegister(OpFromMnemonic(ToUpper(ts[0])).value, ToUpper(RemoveCommas(ts[2])))
       && IsValidRegister(OpFromMnemonic(ToUpper(ts[0])).value, ToUpper(RemoveCommas(ts[3]))))
    ensures DecodeTokens(ts, id).Some? ==>
      var i := DecodeTokens(ts, id).value;
      Decoded(i) && Mnemonic(i.op) == ToUpper(ts[0]) && i.dest == ToUpper(RemoveCommas(ts[1]))
      && i.src1 == ToUpper(RemoveCommas(ts[2])) && i.src2 == ToUpper(RemoveCommas(ts[3]))
  {
  }

  /** `parseInstruction(line, id)`: blank lines and lines that are not four
      tokens give nothing; otherwise the tokens are decoded. */
  function ParseInstruction(line: string, id: int): (r: Option<Instruction>)
    ensures CleanLine(line) == [] ==> r.None?
    ensures r.Some? ==> r.value.id == id
  {
    var clean := CleanLine(line);
    if clean == [] then None
    else
      var ts := Tokens(clean);
      if |ts| != 4 then None else DecodeTokens(ts, id)
  }

  /** Whether a line parses does not depend on the id it is given. */
  lemma ParseValidityIgnoresId(line: string, a: int, b: int)
    ensures ParseInstruction(line, a).Some? == ParseInstruction(line, b).Some?
  {
  }

  /** `formatInstruction`: "OP DEST, SRC1, SRC2". */
  function FormatInstruction(i: Instruction): string
  {
    Mnemonic(i.op) + " " + i.dest + ", " + i.src1 + ", " + i.src2
  }
}
