/** The assembler's diagnostics. `SyntaxError` carries the reporting line
    number and what was wrong; Python's message text is not reproduced. */
module Errors {

  datatype ErrorKind =
    | InvalidOpcode                                   // mnemonic not in the catalog
    | OperandCount(supplied: nat, required: nat)      // instruction arity mismatch
    | NotRegister(position: nat)                      // operand must be R0-R7
    | NotNumber(position: nat)                        // operand must be $hex or a label
    | RegisterNotAllowed(position: nat)               // a register where a number is required
    | LabelRequired                                   // .EQU without a label
    | LabelForbidden                                  // .ORG with a label
    | DirectiveOperandCount(supplied: nat)            // wrong number of .EQU/.ORG/.DW operands
    | DirectiveOperandKind                            // .EQU/.ORG operand not $hex, .DW operand neither $hex nor label
    | InvalidLabel                                    // label not made of word characters
    | DuplicateLabel                                  // label already in the symbol table
    | MissingOrigin                                   // label or opcode before any .ORG
    | UndefinedLabel                                  // label used but never defined

  datatype SyntaxError = SyntaxError(line: nat, kind: ErrorKind)
}
