/** The field checks of `AsmLine.__validate_opcode`, `__validate_operand_type`,
    `__validate_pseudo_opcode`, `__validate_label` and
    `__validate_memory_address`. Each check returns the first problem it finds
    (`Some(kind)`) or `None` when the fields pass; the caller attaches the line
    number. */
module Validator {
  import opened Wrappers
  import opened Chars
  import opened Errors
  import opened Opcodes

  /** `^R[0-7]$` */
  predicate IsRegister(s: string) {
    |s| == 2 && s[0] == 'R' && '0' <= s[1] <= '7'
  }

  /** `^\$[0-9A-F]{1,4}$` */
  predicate IsHexLiteral(s: string) {
    2 <= |s| <= 5 && s[0] == '$' && AllHexDigits(s[1..])
  }

  /** `^\w+$`: the shape of a label. */
  predicate IsLabelWord(s: string) {
    |s| > 0 && forall i | 0 <= i < |s| :: IsWordChar(s[i])
  }

  /** `^(\$[0-9A-F]{1,4}|\w+)$`: a number is a hex literal or a label. */
  predicate IsNumberOperand(s: string) {
    IsHexLiteral(s) || IsLabelWord(s)
  }

  /** `int(s[1:], 16)` on a hex literal. */
  function HexLiteralValue(s: string): (v: nat)
    requires IsHexLiteral(s)
    ensures v < 0x1_0000
  {
    HexValueFitsWord(s[1..]);
    HexValue(s[1..])
  }

  /** The register number written in `Rn`. */
  function RegisterIndex(s: string): (n: nat)
    requires IsRegister(s)
    ensures n < 8
  {
    s[1] as int - '0' as int
  }

  /** A register name is also shaped like a label; a hex literal is neither. */
  lemma RegisterShapes(s: string)
    ensures IsRegister(s) ==> IsLabelWord(s) && IsNumberOperand(s)
    ensures IsHexLiteral(s) ==> !IsRegister(s) && !IsLabelWord(s)
  {
    if IsHexLiteral(s) {
      assert !IsWordChar(s[0]);
    }
  }

  /** An operand of the required kind: a register is `R0`-`R7`; a number is a
      hex literal or a label, but not a register name. */
  predicate Fits(kind: Kind, s: string) {
    match kind
    case Register => IsRegister(s)
    case Number => IsNumberOperand(s) && !IsRegister(s)
  }

  /** `__validate_operand_type` for the operand at (1-based) `position`. */
  function OperandError(kind: Kind, s: string, position: nat): (r: Option<ErrorKind>)
    ensures r.None? <==> Fits(kind, s)
    ensures r.Some? ==> r.value in {NotRegister(position), NotNumber(position), RegisterNotAllowed(position)}
  {
    match kind
    case Register => if IsRegister(s) then None else Some(NotRegister(position))
    case Number =>
      if !IsNumberOperand(s) then Some(NotNumber(position))
      else if IsRegister(s) then Some(RegisterNotAllowed(position))
      else None
  }

  /** The operand-type checks of operands `k + 1`, ..., `|kinds|`, in order. */
  function TypeErrorFrom(kinds: seq<Kind>, ops: seq<string>, k: nat): Option<ErrorKind>
    requires k <= |kinds| <= |ops|
    decreases |kinds| - k
  {
    if k == |kinds| then None
    else if OperandError(kinds[k], ops[k], k + 1).Some? then OperandError(kinds[k], ops[k], k + 1)
    else TypeErrorFrom(kinds, ops, k + 1)
  }

  /** The operand-type checks of all required operands, in order. */
  function TypeError(kinds: seq<Kind>, ops: seq<string>): Option<ErrorKind>
    requires |kinds| <= |ops|
  {
    TypeErrorFrom(kinds, ops, 0)
  }

  /** The type checks pass exactly when every required operand fits its kind;
      a failure names the first operand that does not fit. */
  lemma {:induction false} TypeErrorFromSpec(kinds: seq<Kind>, ops: seq<string>, k: nat)
    requires k <= |kinds| <= |ops|
    ensures TypeErrorFrom(kinds, ops, k).None? <==> forall j | k <= j < |kinds| :: Fits(kinds[j], ops[j])
    ensures TypeErrorFrom(kinds, ops, k).Some? ==>
      exists j | k <= j < |kinds| :: TypeErrorFrom(kinds, ops, k) == OperandError(kinds[j], ops[j], j + 1)
        && forall i | k <= i < j :: Fits(kinds[i], ops[i])
    decreases |kinds| - k
  {
    if k < |kinds| && OperandError(kinds[k], ops[k], k + 1).None? {
      TypeErrorFromSpec(kinds, ops, k + 1);
    }
  }

  /** `__validate_opcode` as written: an instruction that takes two operands
      checks that the first two are present and of the right kinds, but never
      looks for a third. */
  function CheckOpcodeAsWritten(m: string, ops: seq<string>): Option<ErrorKind>
  {
    if !ValidOpcode(m) then Some(InvalidOpcode)
    else
      var d := Info(m);
      var c := |ops|;
      if d.numOperands == 0 then
        if c >= 1 then Some(OperandCount(c, 0)) else None
      else if d.numOperands == 1 then
        if c >= 2 || c == 0 then Some(OperandCount(c, 1)) else TypeError(d.kinds, ops)
      else if d.numOperands == 2 then
        if c < 2 then Some(OperandCount(c, 2)) else TypeError(d.kinds, ops)
      else
        if c < 3 then Some(OperandCount(c, 3)) else TypeError(d.kinds, ops)
  }

  /** `__validate_opcode` as intended: the operand count must equal the
      instruction's arity, and then each operand must fit its kind. */
  function CheckOpcode(m: string, ops: seq<string>): Option<ErrorKind>
  {
    if !ValidOpcode(m) then Some(InvalidOpcode)
    else if |ops| != Info(m).numOperands then Some(OperandCount(|ops|, Info(m).numOperands))
    else TypeError(Info(m).kinds, ops)
  }

  /** An instruction's fields pass exactly when the mnemonic is in the catalog,
      exactly as many operands as it takes are supplied, and each fits its kind. */
  lemma CheckOpcodeSpec(m: string, ops: seq<string>)
    ensures CheckOpcode(m, ops).None? <==>
      && ValidOpcode(m)
      && |ops| == Info(m).numOperands
      && forall k | 0 <= k < |ops| :: Fits(Info(m).kinds[k], ops[k])
  {
    if ValidOpcode(m) && |ops| == Info(m).numOperands {
      TypeErrorFromSpec(Info(m).kinds, ops, 0);
    }
  }

  /** What the check as written accepts: two- and three-operand instructions
      accept any surplus operands after the required ones. */
  lemma CheckOpcodeAsWrittenSpec(m: string, ops: seq<string>)
    ensures CheckOpcodeAsWritten(m, ops).None? <==>
      && ValidOpcode(m)
      && (if Info(m).numOperands >= 2 then |ops| >= Info(m).numOperands else |ops| == Info(m).numOperands)
      && forall k | 0 <= k < Info(m).numOperands :: Fits(Info(m).kinds[k], ops[k])
  {
    if ValidOpcode(m) && |ops| >= Info(m).numOperands {
      TypeErrorFromSpec(Info(m).kinds, ops, 0);
    }
  }

  /** The two checks agree except on surplus operands, which only the
      intended check rejects. */
  lemma CheckOpcodeRefinesAsWritten(m: string, ops: seq<string>)
    ensures CheckOpcode(m, ops).None? ==> CheckOpcodeAsWritten(m, ops).None?
    ensures ValidOpcode(m) && |ops| <= Info(m).numOperands ==> CheckOpcode(m, ops) == CheckOpcodeAsWritten(m, ops)
  {
    CheckOpcodeSpec(m, ops);
    CheckOpcodeAsWrittenSpec(m, ops);
  }

  /** The counterexample: `MV R1,R2,R3` passes the check as written, although
      MV takes two operands. */
  lemma SurplusOperandAccepted()
    ensures CheckOpcodeAsWritten("MV", ["R1", "R2", "R3"]) == None
    ensures CheckOpcode("MV", ["R1", "R2", "R3"]) == Some(OperandCount(3, 2))
  {
    var ops := ["R1", "R2", "R3"];
    assert Info("MV").kinds == [Register, Register];
    assert Fits(Register, ops[0]) && Fits(Register, ops[1]);
    CheckOpcodeAsWrittenSpec("MV", ops);
  }

  /** `^\.(ORG|DW|EQU)$` */
  predicate IsPseudo(m: string) {
    m == ".ORG" || m == ".DW" || m == ".EQU"
  }

  /** `__validate_pseudo_opcode`, with its checks in the source's order. */
  function CheckPseudo(m: string, lbl: Option<string>, ops: seq<string>): Option<ErrorKind>
    requires IsPseudo(m)
  {
    if m == ".EQU" then
      if lbl.None? then Some(LabelRequired)
      else if |ops| != 1 then Some(DirectiveOperandCount(|ops|))
      else if !IsHexLiteral(ops[0]) then Some(DirectiveOperandKind)
      else None
    else if m == ".DW" then
      if |ops| >= 2 then Some(DirectiveOperandCount(|ops|))
      else if |ops| == 1 && !IsNumberOperand(ops[0]) then Some(DirectiveOperandKind)
      else None
    else
      if lbl.Some? then Some(LabelForbidden)
      else if |ops| != 1 then Some(DirectiveOperandCount(|ops|))
      else if !IsHexLiteral(ops[0]) then Some(DirectiveOperandKind)
      else None
  }

  /** The directive rules: `.EQU` needs a label and one hex literal, `.ORG`
      forbids a label and needs one hex literal, `.DW` takes at most one
      operand, a hex literal or a label. */
  predicate DirectiveOk(m: string, lbl: Option<string>, ops: seq<string>) {
    && (m == ".EQU" ==> lbl.Some? && |ops| == 1 && IsHexLiteral(ops[0]))
    && (m == ".ORG" ==> lbl.None? && |ops| == 1 && IsHexLiteral(ops[0]))
    && (m == ".DW" ==> |ops| <= 1 && forall k | 0 <= k < |ops| :: IsNumberOperand(ops[k]))
  }

  lemma CheckPseudoSpec(m: string, lbl: Option<string>, ops: seq<string>)
    requires IsPseudo(m)
    ensures CheckPseudo(m, lbl, ops).None? <==> DirectiveOk(m, lbl, ops)
    ensures m == ".EQU" && lbl.None? ==> CheckPseudo(m, lbl, ops) == Some(LabelRequired)
    ensures m == ".ORG" && lbl.Some? ==> CheckPseudo(m, lbl, ops) == Some(LabelForbidden)
  {
  }

  /** `__validate_opcode` or `__validate_pseudo_opcode`, whichever applies. */
  function CheckOperation(m: string, lbl: Option<string>, ops: seq<string>): Option<ErrorKind> {
    if IsPseudo(m) then CheckPseudo(m, lbl, ops) else CheckOpcode(m, ops)
  }

  /** The opcode checks report only problems with the opcode, its operands
      or the presence of a label; never the label's shape, a duplicate, an
      origin or a lookup. */
  lemma CheckOperationKinds(m: string, lbl: Option<string>, ops: seq<string>)
    requires CheckOperation(m, lbl, ops).Some?
    ensures CheckOperation(m, lbl, ops).value !in {InvalidLabel, DuplicateLabel, MissingOrigin, UndefinedLabel}
  {
    if !IsPseudo(m) && ValidOpcode(m) && |ops| == Info(m).numOperands {
      TypeErrorFromSpec(Info(m).kinds, ops, 0);
    }
  }

  /** `__validate_memory_address`: a line with a label or an opcode needs a
      current address, unless its opcode is `.ORG` or `.EQU`. */
  function CheckOrigin(opcode: Option<string>, address: Option<nat>): (r: Option<ErrorKind>)
    ensures r.Some? <==> address.None? && opcode != Some(".ORG") && opcode != Some(".EQU")
    ensures r.Some? ==> r.value == MissingOrigin
  {
    if opcode == Some(".ORG") || opcode == Some(".EQU") then None
    else if address.None? then Some(MissingOrigin)
    else None
  }
}
