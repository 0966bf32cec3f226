/** One line of assembly (`AsmLine`): its pass-1 validation, which registers
    its label in the symbol table, the address of the line after it, and its
    pass-2 assembly into machine words. The pure functions here are the
    specification; class `AsmLine` and method `NewAsmLine` are the objects the
    assembler builds, proved against them. */
module AsmLines {
  import opened Wrappers
  import opened Errors
  import opened Opcodes
  import opened Validator
  import opened Symbols
  import opened Encoder
  import opened Decomposer

  /** The opcode checks of `__validate` passed: the directive or the
      instruction has the operands it requires. */
  predicate Admitted(f: Fields) {
    f.opcode.Some? ==> CheckOperation(f.opcode.value, f.labelName, f.operands).None?
  }

  /** An admitted line can be handed to pass 2. */
  lemma AdmittedIsEncodable(f: Fields)
    requires Admitted(f)
    ensures Encodable(f.opcode, f.operands)
  {
    if f.opcode.Some? && !IsPseudo(f.opcode.value) {
      ValidatedIsEncodable(f.opcode, f.operands);
    }
  }

  /** Everything pass 1 establishes about an accepted line at `address`: its
      opcode checks passed (so pass 2 can encode it) and, if it has a label or
      an opcode other than `.ORG` and `.EQU`, it has an address. */
  predicate Placed(f: Fields, address: Option<nat>) {
    && Admitted(f)
    && Encodable(f.opcode, f.operands)
    && ((f.labelName.Some? || f.opcode.Some?) ==> CheckOrigin(f.opcode, address).None?)
  }

  /** The value a line's label is bound to: the operand of `.EQU`, otherwise
      the line's address (which is `None` before the first `.ORG`). */
  function LabelBinding(f: Fields, address: Option<nat>): (b: Option<nat>)
    requires Admitted(f)
    ensures f.opcode == Some(".EQU") ==> b == Some(HexLiteralValue(f.operands[0])) && b.value < 0x1_0000
    ensures f.opcode != Some(".EQU") ==> b == address
  {
    if f.opcode == Some(".EQU") then Some(HexLiteralValue(f.operands[0])) else address
  }

  /** The table after the line's label, if any, has been registered. */
  function Registered(f: Fields, address: Option<nat>, table: Table): Table
    requires Admitted(f)
  {
    if f.labelName.Some? then table[f.labelName.value := LabelBinding(f, address)] else table
  }

  /** `__validate`: the opcode checks, then the label (its shape, then its
      registration), then the origin check. The first failure is the line's
      error. The origin check comes after the label has been registered, so a
      line that fails only that check still defines its label. */
  function ValidateLine(f: Fields, line: nat, address: Option<nat>, table: Table): (Option<SyntaxError>, Table)
  {
    if f.opcode.Some? && CheckOperation(f.opcode.value, f.labelName, f.operands).Some? then
      (Some(SyntaxError(line, CheckOperation(f.opcode.value, f.labelName, f.operands).value)), table)
    else if f.labelName.Some? && !IsLabelWord(f.labelName.value) then
      (Some(SyntaxError(line, InvalidLabel)), table)
    else if f.labelName.Some? && Add(table, f.labelName.value, LabelBinding(f, address), line).Failure? then
      (Some(Add(table, f.labelName.value, LabelBinding(f, address), line).error), table)
    else
      var t := Registered(f, address, table);
      if (f.labelName.Some? || f.opcode.Some?) && CheckOrigin(f.opcode, address).Some? then
        (Some(SyntaxError(line, MissingOrigin)), t)
      else (None, t)
  }

  /** Every rule a line must satisfy in pass 1: its opcode checks pass, its
      label is a word not yet defined, and a line with a label or an opcode
      other than `.ORG` and `.EQU` comes after an origin. */
  predicate LineOk(f: Fields, address: Option<nat>, table: Table) {
    && Admitted(f)
    && (f.labelName.Some? ==> IsLabelWord(f.labelName.value) && f.labelName.value !in table)
    && ((f.labelName.Some? || f.opcode.Some?) ==> CheckOrigin(f.opcode, address).None?)
  }

  /** A line is accepted exactly when it satisfies every rule; an accepted
      line adds its label and nothing else to the table. */
  lemma ValidateLineSpec(f: Fields, line: nat, address: Option<nat>, table: Table)
    ensures ValidateLine(f, line, address, table).0.None? <==> LineOk(f, address, table)
    ensures LineOk(f, address, table) ==> ValidateLine(f, line, address, table).1 == Registered(f, address, table)
    ensures ValidateLine(f, line, address, table).0.Some? ==> ValidateLine(f, line, address, table).0.value.line == line
  {
    if LineOk(f, address, table) && f.labelName.Some? {
      AddSpec(table, f.labelName.value, LabelBinding(f, address), line);
    }
  }

  /** A rejected line leaves the table as it was, except when only the origin
      check failed: then its label has already been registered. */
  lemma RejectedLineTable(f: Fields, line: nat, address: Option<nat>, table: Table)
    requires ValidateLine(f, line, address, table).0.Some?
    ensures ValidateLine(f, line, address, table).0.value.kind != MissingOrigin ==>
      ValidateLine(f, line, address, table).1 == table
    ensures ValidateLine(f, line, address, table).0.value.kind == MissingOrigin ==>
      Admitted(f) && ValidateLine(f, line, address, table).1 == Registered(f, address, table)
  {
    if f.opcode.Some? && CheckOperation(f.opcode.value, f.labelName, f.operands).Some? {
      CheckOperationKinds(f.opcode.value, f.labelName, f.operands);
    }
  }

  /** An accepted line is placed. */
  lemma AcceptedIsPlaced(f: Fields, line: nat, address: Option<nat>, table: Table)
    requires ValidateLine(f, line, address, table).0.None?
    ensures Placed(f, address)
  {
    ValidateLineSpec(f, line, address, table);
    AdmittedIsEncodable(f);
  }

  /** The source's quirk: a labelled line before the first `.ORG` is rejected,
      yet its label is defined (bound to no address). */
  lemma OriginFailureStillRegisters(name: string, line: nat)
    requires IsLabelWord(name)
    ensures var f := Fields(Some(name), None, []);
      ValidateLine(f, line, None, map[]) == (Some(SyntaxError(line, MissingOrigin)), map[name := None])
  {
  }

  /** `next_mem_address`: `.ORG` sets the address; before any `.ORG` there is
      none; `.EQU` and a line without an opcode take no space, `.DW` one
      word, an instruction its size. */
  function NextAddress(f: Fields, address: Option<nat>): (next: Option<nat>)
    requires Admitted(f)
    ensures f.opcode == Some(".ORG") ==> next == Some(HexLiteralValue(f.operands[0])) && next.value < 0x1_0000
    ensures f.opcode != Some(".ORG") ==> (next.Some? <==> address.Some?)
    ensures f.opcode != Some(".ORG") && address.Some? ==>
      address.value <= next.value <= address.value + 4
    ensures address.Some? && (f.opcode.None? || f.opcode == Some(".EQU")) ==> next == address
    ensures address.Some? && f.opcode == Some(".DW") ==> next == Some(address.value + 2)
    ensures address.Some? && f.opcode.Some? && !IsPseudo(f.opcode.value) ==>
      next == Some(address.value + OperationSize(f.opcode.value))
  {
    if f.opcode == Some(".ORG") then Some(HexLiteralValue(f.operands[0]))
    else if address.None? then None
    else if f.opcode == Some(".EQU") then address
    else if f.opcode == Some(".DW") then Some(address.value + 2)
    else if f.opcode.Some? then Some(address.value + OperationSize(f.opcode.value))
    else address
  }

  /** Every label the table holds is bound to an address. */
  predicate AllBound(table: Table) {
    forall l | l in table :: table[l].Some?
  }

  /** An instruction assembles to one word per two bytes of its size. */
  lemma InstructionWords(m: string, ops: seq<string>, address: nat, table: Table, line: nat)
    requires ValidOpcode(m) && !IsPseudo(m) && Encodable(Some(m), ops) && AllBound(table)
    requires Encode(Some(m), ops, table, line).Success?
    ensures 2 * |MemLocs(address, Encode(Some(m), ops, table, line).value)| == OperationSize(m)
  {
    EncodeInstruction(m, ops, table, line);
    var d := Info(m);
    if d.format == Long {
      var v := ops[d.secondWord.value.index - 1];
      assert OperandValue(v, table, line).value.Some?;
    }
  }

  /** So an instruction advances the address by two bytes per word. */
  lemma InstructionAdvance(f: Fields, address: nat, table: Table, line: nat)
    requires Admitted(f) && Encodable(f.opcode, f.operands) && AllBound(table)
    requires f.opcode.Some? && !IsPseudo(f.opcode.value)
    requires Encode(f.opcode, f.operands, table, line).Success?
    ensures NextAddress(f, Some(address)) ==
      Some(address + 2 * |MemLocs(address, Encode(f.opcode, f.operands, table, line).value)|)
  {
    InstructionNext(f, address);
    InstructionWords(f.opcode.value, f.operands, address, table, line);
  }

  lemma InstructionNext(f: Fields, address: nat)
    requires Admitted(f) && f.opcode.Some? && !IsPseudo(f.opcode.value)
    ensures ValidOpcode(f.opcode.value)
    ensures NextAddress(f, Some(address)) == Some(address + OperationSize(f.opcode.value))
  {
  }

  /** A `.DW` assembles to exactly one word and advances the address by two. */
  lemma DirectiveWords(f: Fields, address: nat, table: Table, line: nat)
    requires Admitted(f) && f.opcode == Some(".DW") && AllBound(table)
    requires Encode(f.opcode, f.operands, table, line).Success?
    ensures |MemLocs(address, Encode(f.opcode, f.operands, table, line).value)| == 1
    ensures NextAddress(f, Some(address)) ==
      Some(address + 2 * |MemLocs(address, Encode(f.opcode, f.operands, table, line).value)|)
  {
    assert DwWord(f.operands, table, line).value.Some?;
  }

  /** `.EQU` and a line without an opcode assemble to nothing and leave the
      address where it was. */
  lemma SilentWords(f: Fields, address: nat, table: Table, line: nat)
    requires Admitted(f) && (f.opcode.None? || f.opcode == Some(".EQU"))
    ensures Encodable(f.opcode, f.operands) && Encode(f.opcode, f.operands, table, line) == Success(NoWords)
    ensures NextAddress(f, Some(address)) ==
      Some(address + 2 * |MemLocs(address, Encode(f.opcode, f.operands, table, line).value)|)
  {
    assert MemLocs(address, NoWords) == [];
  }

  /** The partner of `NextAddress`: when every label is bound, the address
      advances by exactly two bytes per machine word the line assembles to. */
  lemma AdvanceCoversWords(f: Fields, address: nat, table: Table, line: nat)
    requires Admitted(f) && Encodable(f.opcode, f.operands) && AllBound(table) && f.opcode != Some(".ORG")
    requires Encode(f.opcode, f.operands, table, line).Success?
    ensures NextAddress(f, Some(address)) ==
      Some(address + 2 * |MemLocs(address, Encode(f.opcode, f.operands, table, line).value)|)
  {
    if f.opcode == Some(".DW") {
      DirectiveWords(f, address, table, line);
    } else if f.opcode.Some? && !IsPseudo(f.opcode.value) {
      InstructionAdvance(f, address, table, line);
    } else {
      SilentWords(f, address, table, line);
    }
  }

  /** What `NewAsmLine` reports: a line that cannot be decomposed (the
      source's `ParseError`), a line that fails validation, or the new line. */
  datatype LineOutcome = ParseFailed | Rejected(error: SyntaxError) | Accepted(line: AsmLine)

  class AsmLine {
    const text: string
    const lineNumber: nat
    const memAddress: Option<nat>
    const fields: Fields
    var word1: Option<nat>
    var word2: Option<nat>

    /** The line passed pass 1: its opcode checks and its origin check. */
    predicate Valid() {
      Placed(fields, memAddress)
    }

    constructor(text: string, lineNumber: nat, memAddress: Option<nat>, fields: Fields)
      requires Placed(fields, memAddress)
      ensures Valid()
      ensures this.text == text && this.lineNumber == lineNumber && this.memAddress == memAddress
      ensures this.fields == fields
      ensures word1.None? && word2.None?
    {
      this.text := text;
      this.lineNumber := lineNumber;
      this.memAddress := memAddress;
      this.fields := fields;
      word1 := None;
      word2 := None;
    }

    /** `next_mem_address`. */
    function NextMemAddress(): (next: Option<nat>)
      requires Valid()
      ensures next == NextAddress(fields, memAddress)
    {
      NextAddress(fields, memAddress)
    }

    /** `assemble`, reading labels from the symbol table: on success the
        words are the line's encoding; the only failure is an undefined label
        in the second word of a long instruction or in a `.DW`, by which time
        the first word of an instruction has been set. */
    method Assemble(symbols: SymbolTable) returns (err: Option<SyntaxError>)
      requires Valid()
      modifies this
      ensures var e := Encode(fields.opcode, fields.operands, symbols.table, lineNumber);
        && (e.Success? ==> err.None? && word1 == e.value.word1 && word2 == e.value.word2)
        && (e.Failure? ==>
              && err == Some(e.error)
              && word2 == old(word2)
              && (fields.opcode == Some(".DW") ==> word1 == old(word1))
              && (fields.opcode != Some(".DW") ==> word1 == Some(Word1(Info(fields.opcode.value), fields.operands))))
    {
      var ops := fields.operands;
      if fields.opcode.None? {
        word1, word2 := None, None;
        return None;
      }
      var m := fields.opcode.value;
      if m == ".DW" {
        if |ops| == 0 {
          word1, word2 := Some(0), None;
          return None;
        }
        if IsHexLiteral(ops[0]) {
          word1, word2 := Some(HexLiteralValue(ops[0])), None;
          return None;
        }
        var found := symbols.LookupLabel(ops[0], lineNumber);
        if found.Failure? {
          return Some(found.error);
        }
        word1, word2 := found.value, None;
        return None;
      }
      if m == ".EQU" || m == ".ORG" {
        word1, word2 := None, None;
        return None;
      }
      var d := Info(m);
      EncodableFieldsReady(m, ops);
      word1 := Some(Word1(d, ops));
      if d.format == Long {
        var v := ops[d.secondWord.value.index - 1];
        if IsHexLiteral(v) {
          word2 := Some(HexLiteralValue(v));
        } else {
          var found := symbols.LookupLabel(v, lineNumber);
          if found.Failure? {
            return Some(found.error);
          }
          word2 := found.value;
        }
      } else {
        word2 := None;
      }
      err := None;
    }

    /** `mem_locs`: the (address, word) pairs of the words that are set. */
    function Locs(): (locs: seq<(nat, nat)>)
      reads this
      requires memAddress.Some? || (word1.None? && word2.None?)
      ensures |locs| == (if word1.Some? then 1 else 0) + (if word2.Some? then 1 else 0)
      ensures word1.Some? ==> locs[0] == (memAddress.value, word1.value)
      ensures word2.Some? ==> locs[|locs| - 1] == (memAddress.value + 2, word2.value)
    {
      if memAddress.None? then [] else MemLocs(memAddress.value, Words(word1, word2))
    }
  }

  /** `AsmLine(line, line_number, mem_address)`: decompose the text, validate
      the fields (registering the label), and build the line. */
  method NewAsmLine(text: string, lineNumber: nat, memAddress: Option<nat>, symbols: SymbolTable)
    returns (r: LineOutcome)
    modifies symbols
    ensures Decompose(text).None? ==> r == ParseFailed && symbols.table == old(symbols.table)
    ensures Decompose(text).Some? ==>
      var v := ValidateLine(Decompose(text).value, lineNumber, memAddress, old(symbols.table));
      && symbols.table == v.1
      && (v.0.Some? ==> r == Rejected(v.0.value))
      && (v.0.None? ==>
            && r.Accepted? && fresh(r.line) && r.line.Valid()
            && r.line.fields == Decompose(text).value && r.line.text == text
            && r.line.lineNumber == lineNumber && r.line.memAddress == memAddress
            && r.line.word1.None? && r.line.word2.None?)
  {
    var parsed := Decompose(text);
    if parsed.None? {
      return ParseFailed;
    }
    var f := parsed.value;
    if f.opcode.Some? {
      var problem := CheckOperation(f.opcode.value, f.labelName, f.operands);
      if problem.Some? {
        return Rejected(SyntaxError(lineNumber, problem.value));
      }
    }
    if f.labelName.Some? {
      if !IsLabelWord(f.labelName.value) {
        return Rejected(SyntaxError(lineNumber, InvalidLabel));
      }
      var err := symbols.AddLabel(f.labelName.value, LabelBinding(f, memAddress), lineNumber);
      if err.Some? {
        return Rejected(err.value);
      }
    }
    if f.labelName.Some? || f.opcode.Some? {
      var problem := CheckOrigin(f.opcode, memAddress);
      if problem.Some? {
        return Rejected(SyntaxError(lineNumber, problem.value));
      }
    }
    AdmittedIsEncodable(f);
    var line := new AsmLine(text, lineNumber, memAddress, f);
    r := Accepted(line);
  }
}
