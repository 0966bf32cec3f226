/** The RISC240 instruction catalog: one immutable descriptor per mnemonic. */
module Opcodes {
  import opened Wrappers
  import opened Chars

  /** `short` instructions occupy one 16-bit word, `long` ones two. */
  datatype Format = Short | Long

  /** What a 3-bit field (or the second word) is taken from:
      the constant `zero`, or operand `op1`, `op2`, `op3` (index 1, 2, 3). */
  datatype Source = Zero | Op(index: nat)

  datatype Kind = Register | Number

  /** A 7-bit class code written as binary digits, as in `'0011000'`. */
  type ClassCode = s: string | |s| == 7 && AllBits(s) witness "0000000"

  /** A catalog entry. `kinds[k]` is the required kind of operand k+1;
      `encoding` is the 7-bit class code as a string of binary digits. */
  datatype Descriptor = Descriptor(
    format: Format,
    field1: Source,
    field2: Source,
    field3: Source,
    secondWord: Option<Source>,
    numOperands: nat,
    kinds: seq<Kind>,
    encoding: ClassCode)

  /** `OpcodeInfo.opcode_info`: the descriptor of a mnemonic, `None` when the
      mnemonic is not in the catalog. */
  function Lookup(m: string): Option<Descriptor> {
    match m
    case "ADD"  => Some(Descriptor(Short, Op(1), Op(2), Op(3), None,        3, [Register, Register, Register], "0000000"))
    case "ADDI" => Some(Descriptor(Long,  Op(1), Op(2), Zero,  Some(Op(3)), 3, [Register, Register, Number],   "0011000"))
    case "AND"  => Some(Descriptor(Short, Op(1), Op(2), Op(3), None,        3, [Register, Register, Register], "1001000"))
    case "BRA"  => Some(Descriptor(Long,  Zero,  Zero,  Zero,  Some(Op(1)), 1, [Number],                       "1111100"))
    case "BRC"  => Some(Descriptor(Long,  Zero,  Zero,  Zero,  Some(Op(1)), 1, [Number],                       "1010100"))
    case "BRN"  => Some(Descriptor(Long,  Zero,  Zero,  Zero,  Some(Op(1)), 1, [Number],                       "1001100"))
    case "BRNZ" => Some(Descriptor(Long,  Zero,  Zero,  Zero,  Some(Op(1)), 1, [Number],                       "1101100"))
    case "BRV"  => Some(Descriptor(Long,  Zero,  Zero,  Zero,  Some(Op(1)), 1, [Number],                       "1011100"))
    case "BRZ"  => Some(Descriptor(Long,  Zero,  Zero,  Zero,  Some(Op(1)), 1, [Number],                       "1100100"))
    case "LI"   => Some(Descriptor(Long,  Op(1), Zero,  Zero,  Some(Op(2)), 2, [Register, Number],             "0011000"))
    case "LW"   => Some(Descriptor(Long,  Op(1), Op(2), Zero,  Some(Op(3)), 3, [Register, Register, Number],   "0010100"))
    case "MV"   => Some(Descriptor(Short, Op(1), Op(2), Zero,  None,        2, [Register, Register],           "0010000"))
    case "NOT"  => Some(Descriptor(Short, Op(1), Op(2), Zero,  None,        2, [Register, Register],           "1000000"))
    case "OR"   => Some(Descriptor(Short, Op(1), Op(2), Op(3), None,        3, [Register, Register, Register], "1010000"))
    case "SLL"  => Some(Descriptor(Short, Op(1), Op(2), Op(3), None,        3, [Register, Register, Register], "1100000"))
    case "SLLI" => Some(Descriptor(Long,  Op(1), Op(2), Zero,  Some(Op(3)), 3, [Register, Register, Number],   "1100001"))
    case "SLT"  => Some(Descriptor(Short, Op(1), Op(2), Op(3), None,        3, [Register, Register, Register], "0101000"))
    case "SLTI" => Some(Descriptor(Long,  Op(1), Op(2), Zero,  Some(Op(3)), 3, [Register, Register, Number],   "0101001"))
    case "SRA"  => Some(Descriptor(Short, Op(1), Op(2), Op(3), None,        3, [Register, Register, Register], "1111000"))
    case "SRAI" => Some(Descriptor(Long,  Op(1), Op(2), Zero,  Some(Op(3)), 3, [Register, Register, Number],   "1111001"))
    case "SRL"  => Some(Descriptor(Short, Op(1), Op(2), Op(3), None,        3, [Register, Register, Register], "1110000"))
    case "SRLI" => Some(Descriptor(Long,  Op(1), Op(2), Zero,  Some(Op(3)), 3, [Register, Register, Number],   "1110001"))
    case "STOP" => Some(Descriptor(Short, Zero,  Zero,  Zero,  None,        0, [],                             "1111111"))
    case "SUB"  => Some(Descriptor(Short, Op(1), Op(2), Op(3), None,        3, [Register, Register, Register], "0001000"))
    case "SW"   => Some(Descriptor(Long,  Zero,  Op(1), Op(2), Some(Op(3)), 3, [Register, Register, Number],   "0011100"))
    case "XOR"  => Some(Descriptor(Short, Op(1), Op(2), Op(3), None,        3, [Register, Register, Register], "1011000"))
    case _      => None
  }

  /** A field source is the constant zero or names a register operand of the instruction. */
  predicate FieldOk(d: Descriptor, src: Source) {
    src.Zero? || (1 <= src.index <= d.numOperands && |d.kinds| == d.numOperands && d.kinds[src.index - 1] == Register)
  }

  predicate UsedByField(d: Descriptor, k: nat) {
    d.field1 == Op(k) || d.field2 == Op(k) || d.field3 == Op(k)
  }

  /** Operand k, when the instruction has one, feeds a field (a register) or the second word (a number). */
  predicate Consumed(d: Descriptor, k: nat)
    requires 1 <= k && |d.kinds| == d.numOperands
  {
    k <= d.numOperands ==>
      (d.kinds[k - 1] == Register ==> UsedByField(d, k))
      && (d.kinds[k - 1] == Number ==> d.secondWord == Some(Op(k)))
  }

  /** The shape every catalog entry has: at most three typed operands, a 7-bit
      class code, fields drawn from register operands, a second word exactly
      for the long format and drawn from a number operand, and every operand
      consumed by a field (registers) or by the second word (numbers). */
  predicate WellFormed(d: Descriptor) {
    && d.numOperands <= 3
    && |d.kinds| == d.numOperands
    && |d.encoding| == 7 && AllBits(d.encoding)
    && FieldOk(d, d.field1) && FieldOk(d, d.field2) && FieldOk(d, d.field3)
    && (d.format == Long <==> d.secondWord.Some?)
    && (d.secondWord.Some? ==>
          d.secondWord.value.Op? && 1 <= d.secondWord.value.index <= d.numOperands
          && d.kinds[d.secondWord.value.index - 1] == Number)
    && Consumed(d, 1) && Consumed(d, 2) && Consumed(d, 3)
  }

  /** Every descriptor in the catalog is well formed. */
  lemma CatalogWellFormed(m: string)
    requires Lookup(m).Some?
    ensures WellFormed(Lookup(m).value)
  {
    CatalogOperands(m);
    CatalogFields(m);
    CatalogSecondWords(m);
  }

  lemma CatalogOperands(m: string)
    requires Lookup(m).Some?
    ensures var d := Lookup(m).value;
      d.numOperands <= 3 && |d.kinds| == d.numOperands && Consumed(d, 1) && Consumed(d, 2) && Consumed(d, 3)
  {
  }

  lemma CatalogFields(m: string)
    requires Lookup(m).Some?
    ensures var d := Lookup(m).value; FieldOk(d, d.field1) && FieldOk(d, d.field2) && FieldOk(d, d.field3)
  {
  }

  lemma CatalogSecondWords(m: string)
    requires Lookup(m).Some?
    ensures var d := Lookup(m).value;
      && (d.format == Long <==> d.secondWord.Some?)
      && (d.secondWord.Some? ==>
            d.secondWord.value.Op? && 1 <= d.secondWord.value.index <= d.numOperands
            && |d.kinds| == d.numOperands && d.kinds[d.secondWord.value.index - 1] == Number)
  {
  }

  /** `OpcodeInfo.valid_opcode`. */
  predicate ValidOpcode(m: string) {
    Lookup(m).Some?
  }

  /** The descriptor of a catalog mnemonic. */
  function Info(m: string): (d: Descriptor)
    requires ValidOpcode(m)
    ensures WellFormed(d)
  {
    CatalogWellFormed(m);
    Lookup(m).value
  }

  /** `OpcodeInfo.operation_size`: the number of address units (bytes) the instruction occupies. */
  function OperationSize(m: string): (size: nat)
    requires ValidOpcode(m)
    ensures size == 2 || size == 4
    ensures size == 4 <==> Info(m).secondWord.Some?
  {
    if Info(m).format == Short then 2 else 4
  }

  /** Class codes are not unique: LI and ADDI share `0011000`. */
  lemma ClassCodesNotInjective()
    ensures ValidOpcode("LI") && ValidOpcode("ADDI") && "LI" != "ADDI"
    ensures Info("LI").encoding == Info("ADDI").encoding
  {
  }
}
