/** Pass 2 on one line: `AsmLine.assemble`, `__assemble_register`,
    `__assemble_field`, `__assemble_long` and `mem_locs`, as functions of the
    line's fields and the finished symbol table. */
module Encoder {
  import opened Wrappers
  import opened Chars
  import opened Errors
  import opened Opcodes
  import opened Validator
  import opened Symbols

  /** `__assemble_register`: the 3-bit binary name of `R0`-`R7`. */
  function AssembleRegister(r: string): (bits: string)
    requires IsRegister(r)
    ensures |bits| == 3 && AllBits(bits)
    ensures BinValue(bits) == RegisterIndex(r)
  {
    var bits :=
      if r == "R0" then "000"
      else if r == "R1" then "001"
      else if r == "R2" then "010"
      else if r == "R3" then "011"
      else if r == "R4" then "100"
      else if r == "R5" then "101"
      else if r == "R6" then "110"
      else "111";
    assert r == [r[0], r[1]];
    BinValueThree(bits);
    bits
  }

  /** A field source can be assembled: the constant zero, or an operand that
      is a register. */
  predicate FieldReady(src: Source, ops: seq<string>) {
    src.Zero? || (1 <= src.index <= |ops| && IsRegister(ops[src.index - 1]))
  }

  /** The number a field holds: 0 for `zero`, n for an operand `Rn`. */
  function FieldValue(src: Source, ops: seq<string>): nat
    requires FieldReady(src, ops)
  {
    if src.Zero? then 0 else RegisterIndex(ops[src.index - 1])
  }

  /** `__assemble_field`. */
  function AssembleField(src: Source, ops: seq<string>): (bits: string)
    requires FieldReady(src, ops)
    ensures |bits| == 3 && AllBits(bits)
    ensures BinValue(bits) == FieldValue(src, ops)
  {
    if src.Zero? then
      BinValueThree("000");
      "000"
    else AssembleRegister(ops[src.index - 1])
  }

  /** All three fields of a descriptor can be assembled from the operands. */
  predicate FieldsReady(d: Descriptor, ops: seq<string>) {
    FieldReady(d.field1, ops) && FieldReady(d.field2, ops) && FieldReady(d.field3, ops)
  }

  /** The 16-bit machine code string: class code, then field1, field2, field3. */
  function MachineCode(d: Descriptor, ops: seq<string>): (code: string)
    requires FieldsReady(d, ops)
    ensures |code| == 16 && AllBits(code)
  {
    d.encoding + AssembleField(d.field1, ops) + AssembleField(d.field2, ops) + AssembleField(d.field3, ops)
  }

  /** `int(mach_code, 2)`: the first word of an instruction. */
  function Word1(d: Descriptor, ops: seq<string>): (w: nat)
    requires FieldsReady(d, ops)
    ensures w == BinValue(d.encoding) * 512 + FieldValue(d.field1, ops) * 64
                 + FieldValue(d.field2, ops) * 8 + FieldValue(d.field3, ops)
    ensures w < 0x1_0000
  {
    var e := d.encoding;
    var a := AssembleField(d.field1, ops);
    var b := AssembleField(d.field2, ops);
    var c := AssembleField(d.field3, ops);
    BinValueAppend(e + a + b, c);
    BinValueAppend(e + a, b);
    BinValueAppend(e, a);
    BinValueBound(e);
    assert Pow2(3) == 8;
    BinValue(MachineCode(d, ops))
  }

  /** Reading the word back: the class code is the top seven bits and the
      three fields are the three 3-bit groups below it. */
  lemma Word1Decodes(d: Descriptor, ops: seq<string>)
    requires FieldsReady(d, ops)
    ensures Word1(d, ops) / 512 == BinValue(d.encoding)
    ensures Word1(d, ops) / 64 % 8 == FieldValue(d.field1, ops)
    ensures Word1(d, ops) / 8 % 8 == FieldValue(d.field2, ops)
    ensures Word1(d, ops) % 8 == FieldValue(d.field3, ops)
  {
    var e := BinValue(d.encoding);
    var f1 := FieldValue(d.field1, ops);
    var f2 := FieldValue(d.field2, ops);
    var f3 := FieldValue(d.field3, ops);
    var w := Word1(d, ops);
    var y := e * 8 + f1;
    var x := y * 8 + f2;
    assert w == x * 8 + f3;
    DivModUnique(x, f3, 8);
    DivModUnique(y, f2, 8);
    assert w == y * 64 + (f2 * 8 + f3);
    DivModUnique(y, f2 * 8 + f3, 64);
    DivModUnique(e, f1, 8);
    assert w == e * 512 + (f1 * 64 + f2 * 8 + f3);
    DivModUnique(e, f1 * 64 + f2 * 8 + f3, 512);
  }

  /** What the second word of a long instruction is read from: a hex literal
      is its own value, any other operand a label in the table. */
  function OperandValue(val: string, table: Table, line: nat): (r: Result<Option<nat>, SyntaxError>)
    ensures IsHexLiteral(val) ==> r == Success(Some(HexLiteralValue(val)))
    ensures !IsHexLiteral(val) ==> r == Find(table, val, line)
  {
    if IsHexLiteral(val) then Success(Some(HexLiteralValue(val))) else Find(table, val, line)
  }

  /** `__assemble_long`: the second word, from the operand `second_word` names. */
  function AssembleLong(d: Descriptor, ops: seq<string>, table: Table, line: nat): Result<Option<nat>, SyntaxError>
    requires d.secondWord.Some? && d.secondWord.value.Op? && 1 <= d.secondWord.value.index <= |ops|
  {
    OperandValue(ops[d.secondWord.value.index - 1], table, line)
  }

  /** The machine words of one line: `word1` and `word2`, each possibly absent. */
  datatype Words = Words(word1: Option<nat>, word2: Option<nat>)

  const NoWords := Words(None, None)

  /** The faults Python raises inside the `.DW` fallback. */
  datatype PythonFault = TypeError | ValueError

  /** The result of the `.DW` assembly as written: a word (possibly absent) or
      an uncaught Python exception. */
  datatype DwOutcome = DwWordOk(word: Option<nat>) | DwCrash(fault: PythonFault)

  /** The characters `int(s, 16)` accepts in the digits part. */
  predicate HexOrUnderscore(c: char) {
    IsHexDigit(c) || c == '_'
  }

  /** The digits of `t` without its underscores. */
  function Digits(t: string): (d: string)
    requires forall i | 0 <= i < |t| :: HexOrUnderscore(t[i])
    ensures AllHexDigits(d)
  {
    if t == [] then []
    else
      assert forall i | 0 <= i < |t[1..]| :: t[1..][i] == t[i + 1];
      var rest := Digits(t[1..]);
      if t[0] == '_' then rest
      else
        assert HexOrUnderscore(t[0]);
        var d := [t[0]] + rest;
        assert forall i | 1 <= i < |d| :: d[i] == rest[i - 1];
        assert d[0] == t[0];
        d
  }

  /** Without underscores there is nothing to drop. */
  lemma {:induction false} DigitsNoUnderscore(t: string)
    requires forall i | 0 <= i < |t| :: IsHexDigit(t[i])
    ensures Digits(t) == t
  {
    if t != [] {
      assert forall i | 0 <= i < |t[1..]| :: t[1..][i] == t[i + 1];
      DigitsNoUnderscore(t[1..]);
      assert [t[0]] + t[1..] == t;
    }
  }

  /** Hex digits with single underscores between them. */
  predicate UnderscoredHex(t: string) {
    && |t| > 0 && t[0] != '_' && t[|t| - 1] != '_'
    && (forall i | 0 <= i < |t| :: HexOrUnderscore(t[i]))
    && (forall i | 0 <= i < |t| - 1 :: t[i] == '_' ==> t[i + 1] != '_')
  }

  /** Python's `int(s, 16)` on an upper-cased string without whitespace or
      sign: an optional `0X` prefix (optionally followed by an underscore), then
      hex digits with single underscores between them; anything else is a
      `ValueError` (`None`). */
  function PyInt16(s: string): Option<nat> {
    var t := if |s| >= 2 && s[0] == '0' && s[1] == 'X' then (if |s| >= 3 && s[2] == '_' then s[3..] else s[2..]) else s;
    if UnderscoredHex(t) then Some(HexValue(Digits(t))) else None
  }

  /** On plain hex digits Python's `int(s, 16)` is the hex value. */
  lemma PyInt16Digits(s: string)
    requires |s| > 0 && AllHexDigits(s)
    ensures PyInt16(s) == Some(HexValue(s))
  {
    DigitsNoUnderscore(s);
  }

  /** `.DW` in `assemble` as written: look the operand up as a label first, and
      when that fails read everything after its first character as hex. */
  function DwWordAsWritten(ops: seq<string>, table: Table): DwOutcome {
    if |ops| == 0 then DwCrash(TypeError)
    else if ops[0] in table then DwWordOk(table[ops[0]])
    else
      var tail := if |ops[0]| == 0 then ops[0] else ops[0][1..];
      match PyInt16(tail)
      case Some(v) => DwWordOk(Some(v))
      case None => DwCrash(ValueError)
  }

  /** `.DW` as intended: a hex literal is its value, a label is looked up
      (an undefined label is an error, as for the second word of an
      instruction), and a bare `.DW` reserves a zero word. */
  function DwWord(ops: seq<string>, table: Table, line: nat): Result<Option<nat>, SyntaxError> {
    if |ops| == 0 then Success(Some(0)) else OperandValue(ops[0], table, line)
  }

  /** The intended `.DW` never faults, and resolves its operand the way the
      second word of an instruction does. */
  lemma DwWordSpec(ops: seq<string>, table: Table, line: nat)
    requires |ops| == 1
    ensures IsHexLiteral(ops[0]) ==> DwWord(ops, table, line) == Success(Some(HexLiteralValue(ops[0])))
    ensures !IsHexLiteral(ops[0]) && ops[0] in table ==> DwWord(ops, table, line) == Success(table[ops[0]])
    ensures !IsHexLiteral(ops[0]) && ops[0] !in table ==> DwWord(ops, table, line) == Failure(SyntaxError(line, UndefinedLabel))
  {
  }

  /** Where the intended `.DW` gives a word, the code as written gives the same
      word, provided the table holds only label-shaped names. */
  lemma DwWordAgrees(ops: seq<string>, table: Table, line: nat)
    requires forall l | l in table :: IsLabelWord(l)
    requires |ops| == 1 && DwWord(ops, table, line).Success?
    ensures DwWordAsWritten(ops, table) == DwWordOk(DwWord(ops, table, line).value)
  {
    var op := ops[0];
    if IsHexLiteral(op) {
      RegisterShapes(op);
      PyInt16Digits(op[1..]);
    }
  }

  /** The counterexamples: an undefined label whose tail is hex becomes that
      hex number, any other undefined label and a bare `.DW` crash. */
  lemma DwAsWrittenCounterexamples()
    ensures DwWordAsWritten(["ABC"], map[]) == DwWordOk(Some(0xBC))
    ensures DwWord(["ABC"], map[], 7) == Failure(SyntaxError(7, UndefinedLabel))
    ensures DwWordAsWritten(["XYZ"], map[]) == DwCrash(ValueError)
    ensures DwWordAsWritten([], map[]) == DwCrash(TypeError)
    ensures DwWord([], map[], 7) == Success(Some(0))
  {
    var t := "ABC"[1..];
    assert t == "BC";
    DigitsNoUnderscore(t);
    assert HexValue(t) == 16 * HexValue("B") + 12 by { assert t[..1] == "B"; }
    assert HexValue("B") == 11 by { assert "B"[..0] == []; }
    assert !IsHexLiteral("XYZ");
    assert !UnderscoredHex("XYZ"[1..]) by { assert "XYZ"[1..][0] == 'Y'; }
  }

  /** What pass 2 needs of a line: an instruction's fields and second word can
      be assembled from its operands. */
  predicate Encodable(opcode: Option<string>, ops: seq<string>) {
    opcode.Some? && !IsPseudo(opcode.value) ==>
      && ValidOpcode(opcode.value)
      && |ops| >= Info(opcode.value).numOperands
      && forall k | 0 <= k < Info(opcode.value).numOperands ::
           Info(opcode.value).kinds[k] == Register ==> IsRegister(ops[k])
  }

  /** A validated line can be encoded, whichever arity check admitted it. */
  lemma ValidatedIsEncodable(opcode: Option<string>, ops: seq<string>)
    requires opcode.Some? && !IsPseudo(opcode.value)
    requires CheckOpcode(opcode.value, ops).None? || CheckOpcodeAsWritten(opcode.value, ops).None?
    ensures Encodable(opcode, ops)
  {
    CheckOpcodeSpec(opcode.value, ops);
    CheckOpcodeAsWrittenSpec(opcode.value, ops);
  }

  /** The fields of a catalog instruction can be assembled from operands that
      fit. */
  lemma EncodableFieldsReady(m: string, ops: seq<string>)
    requires Encodable(Some(m), ops) && !IsPseudo(m)
    ensures FieldsReady(Info(m), ops)
  {
  }

  /** `assemble`: no opcode, `.ORG` and `.EQU` give no words; `.DW` one word;
      an instruction its first word and, when long, its second. */
  function Encode(opcode: Option<string>, ops: seq<string>, table: Table, line: nat): (r: Result<Words, SyntaxError>)
    requires Encodable(opcode, ops)
  {
    if opcode.None? || opcode == Some(".ORG") || opcode == Some(".EQU") then Success(NoWords)
    else if opcode == Some(".DW") then
      var w :- DwWord(ops, table, line);
      Success(Words(w, None))
    else
      var d := Info(opcode.value);
      var w1 := Word1(d, ops);
      if d.format == Long then
        var w2 :- AssembleLong(d, ops, table, line);
        Success(Words(Some(w1), w2))
      else Success(Words(Some(w1), None))
  }

  /** What `assemble` produces: an instruction always has a first word made of
      its class code and fields; it has a second word exactly when its format
      is long, holding the named operand's value. */
  lemma EncodeInstruction(m: string, ops: seq<string>, table: Table, line: nat)
    requires Encodable(Some(m), ops) && !IsPseudo(m)
    requires Encode(Some(m), ops, table, line).Success?
    ensures var w := Encode(Some(m), ops, table, line).value;
      && w.word1 == Some(Word1(Info(m), ops))
      && (Info(m).format == Short ==> w.word2.None?)
      && (Info(m).format == Long ==>
            OperandValue(ops[Info(m).secondWord.value.index - 1], table, line) == Success(w.word2))
  {
  }

  /** The only error `assemble` reports is an undefined label, and only for a
      long instruction or a `.DW`. */
  lemma EncodeErrors(opcode: Option<string>, ops: seq<string>, table: Table, line: nat)
    requires Encodable(opcode, ops) && Encode(opcode, ops, table, line).Failure?
    ensures Encode(opcode, ops, table, line).error == SyntaxError(line, UndefinedLabel)
    ensures opcode.Some? && (opcode.value == ".DW" || (!IsPseudo(opcode.value) && Info(opcode.value).format == Long))
  {
  }

  /** `mem_locs`: `(address, word1)` and then `(address + 2, word2)`, for the
      words that are present. */
  function MemLocs(address: nat, w: Words): (locs: seq<(nat, nat)>)
    ensures |locs| == (if w.word1.Some? then 1 else 0) + (if w.word2.Some? then 1 else 0)
    ensures w.word1.Some? ==> locs[0] == (address, w.word1.value)
    ensures w.word2.Some? ==> locs[|locs| - 1] == (address + 2, w.word2.value)
    ensures w.word1.Some? && w.word2.Some? ==> locs == [(address, w.word1.value), (address + 2, w.word2.value)]
  {
    (if w.word1.Some? then [(address, w.word1.value)] else [])
      + (if w.word2.Some? then [(address + 2, w.word2.value)] else [])
  }
}
