# as240 in Dafny

A model of `as240.py`, the two-pass assembler for the 16-bit RISC240
instruction set, with proofs about it.

In pass 1 the assembler reads a source file line by line:

- it cuts each line into a label, an opcode and up to three operands;
- it checks the fields against the instruction catalog and the directive
  rules (`.ORG`, `.EQU`, `.DW`);
- it enters labels in the symbol table;
- it threads the current memory address from line to line.

A line that breaks a rule is a syntax error. The run stops at the sixth
error, and also at the end of the file if any error occurred. Pass 2 then
assembles every kept line against the finished symbol table into one or two
16-bit words, and writes the `(address, word)` pairs as a memory image, with
zero words filling the gaps.

Modules, in dependency order:

| module | file | what it models |
|---|---|---|
| `Wrappers` | wrappers.dfy | `Option` and `Result` (the error path of every check) |
| `Chars` | chars.dfy | ASCII character classes, upper-casing, `int(s, 2)` and `int(s, 16)` |
| `Errors` | errors.dfy | `SyntaxError` as a line number and an error kind (the message text is not modelled) |
| `Opcodes` | opcodes.dfy | `OpcodeInfo`: the catalog of 26 mnemonics |
| `Symbols` | symbols.dfy | `SymbolTable` as a class holding a map, plus the pure functions that specify it |
| `Decomposer` | decomposer.dfy | `__parseInitial`: comment stripping and the cascade of ten line shapes |
| `Validator` | validator.dfy | `__validate_opcode`, `__validate_operand_type`, `__validate_pseudo_opcode`, `__validate_memory_address`, and the operand regexes |
| `Encoder` | encoder.dfy | `assemble`, `__assemble_register`, `__assemble_field`, `__assemble_long`, `mem_locs` |
| `AsmLines` | asmlines.dfy | `__validate`, `__validate_label`, `next_mem_address`, and the class `AsmLine` |
| `MemImage` | memimage.dfy | `create_mem_file`: a stable sort by address and gap filling |
| `Driver` | driver.dfy | the two passes of `main` |
| `Vectors` | vectors.dfy | worked encodings, and a small program taken through both passes |

Pure parts of the source are functions, and each one has lemmas tying it to
an independent statement of what it should do. Two parts of the source
update state, and they are modelled imperatively:

- `SymbolTable` is a class with a `map` field.
- `AsmLine` is a class whose `word1` and `word2` fields `Assemble` sets.

`main`, `create_mem_file` and `add_label` are methods proved equal to the
functions that specify them (`RunSpec`, `Image`, `Add`).

## Model

| member | source | states |
|---|---|---|
| Chars.Upper | as240.py:612-693 | `.upper()` on a field: the same length, each letter upper-cased, every other character kept |
| Chars.BinValueBound | as240.py:984 | `int(bits, 2)` of n bits is below 2^n |
| Chars.HexValueFitsWord | as240.py:949 | `int(digits, 16)` of at most four hex digits is below 0x10000 |
| Opcodes.CatalogWellFormed | as240.py:40-270 | every catalog entry is well formed: at most 3 operands, one kind per operand, a 7-bit class code, each field zero or a register operand, a second word exactly for long instructions and then from a number operand, every operand used |
| Opcodes.Info | as240.py:273-325 | the descriptor of a valid mnemonic is well formed |
| Opcodes.OperationSize | as240.py:297-301 | 2 bytes for a short instruction, 4 for a long one, i.e. 4 exactly when there is a second word |
| Opcodes.ClassCodesNotInjective | as240.py:49-124 | LI and ADDI share class code `0011000` |
| Symbols.AddSpec | as240.py:1049-1054 | adding succeeds exactly for a new name; then the table gains that one binding and keeps every other; otherwise a DuplicateLabel error on the given line |
| Symbols.FindSpec | as240.py:1057-1064 | a lookup succeeds exactly for a name in the table and returns its binding; otherwise an UndefinedLabel error on the given line |
| Symbols.FindAfterAdd | as240.py:1049-1064 | after adding a name, looking it up gives the added value, and every other name gives what it gave before |
| Symbols.SymbolTable.constructor | as240.py:1044-1047 | a new table is empty |
| Symbols.SymbolTable.AddLabel | as240.py:1049-1054 | the table becomes `Add(old table)` on success and stays unchanged on a duplicate |
| Symbols.SymbolTable.LookupLabel | as240.py:1057-1064 | returns `Find` on the current table |
| Symbols.SymbolTable.Clear | as240.py:1067-1072 | the table becomes empty |
| Decomposer.StripComment | as240.py:595-600 | the result is a prefix without `;`, and it is cut exactly at the first `;` when there is one |
| Decomposer.WordLen | as240.py:339-457 | the length of the leading `\S+` run: non-space before it, space or end at it |
| Decomposer.FirstMatch | as240.py:603-695 | the first shape that matches, with none before it; `None` only when no shape matches |
| Decomposer.FirstMatchAt | as240.py:603-695 | if shape k matches and none before it does, the cascade returns shape k |
| Decomposer.UpperFields | as240.py:612-693 | the label, the opcode and every operand are each the upper-cased captured text, and no field appears or disappears |
| Decomposer.OperandsSound | as240.py:369-457 | the operand groups found split the text as `op (\s*,\s* op)*` with exactly n operands |
| Decomposer.OperandsComplete | as240.py:369-457 | whenever the text splits into n operands, the greedy search finds n operands, the first one at least as long |
| Decomposer.NoCommaNoOperands | as240.py:369-457 | operand text without a comma never matches the two- or three-operand groups |
| Decomposer.SplitsAsTokens | as240.py:369-457 | every operand of a split is a non-empty run of non-space characters |
| Decomposer.DecomposeWellShaped | as240.py:591-698 | a decomposed line has non-empty, space-free, upper-case fields, at most 3 operands, and operands only after an opcode |
| Decomposer.DecomposeLabelColumn | as240.py:603-693 | a label is present exactly when the line (before `;`) starts with a non-space character; the line is blank exactly when it is all space |
| Decomposer.LabelledThreeOperandsWin | as240.py:624-636 | a labelled line with three comma-separated operands is read as such, before any shorter shape |
| Decomposer.IndentedThreeOperandsWin | as240.py:637-646 | the same for an unlabelled line |
| Decomposer.LabelledThreeOperandsExclusive | as240.py:339-403 | a line matching the labelled three-operand shape matches neither the label-only nor the label-and-opcode shape |
| Validator.RegisterShapes | as240.py:459-492 | a register name is also shaped like a label; a hex literal is neither |
| Validator.HexLiteralValue | as240.py:949 | `int(s[1:], 16)` of a literal is below 0x10000 |
| Validator.RegisterIndex | as240.py:988-1009 | the register number is below 8 |
| Validator.TypeErrorFromSpec | as240.py:889-929 | the operand type check finds no error exactly when every operand fits its kind, and otherwise reports the first that does not |
| Validator.CheckOpcodeSpec | as240.py:719-777 | (corrected) an instruction passes exactly when the mnemonic is in the catalog, the operand count equals its arity, and each operand fits its kind |
| Validator.CheckOpcodeAsWrittenSpec | as240.py:719-777 | (as written) as above, except that a two- or three-operand instruction accepts surplus operands; since a decomposed line has at most three operands, only the two-operand instructions (MV, NOT, LI) can actually receive one |
| Validator.CheckOpcodeRefinesAsWritten | as240.py:743-753 | the corrected check accepts only what the written one accepts, and agrees with it when there are no surplus operands |
| Validator.SurplusOperandAccepted | as240.py:743-753 | `MV R1,R2,R3` passes the check as written and fails the corrected one with OperandCount(3, 2) |
| Validator.CheckPseudoSpec | as240.py:798-887 | a directive passes exactly when `.EQU` has a label and one hex literal, `.ORG` has no label and one hex literal, and `.DW` has at most one operand, a number; a bare `.EQU` is LabelRequired and a labelled `.ORG` is LabelForbidden |
| Validator.CheckOperationKinds | as240.py:701-711 | the opcode checks never report a label, duplicate, origin or lookup error |
| Validator.CheckOrigin | as240.py:931-944 | fails with MissingOrigin exactly when there is no address and the opcode is neither `.ORG` nor `.EQU` |
| Encoder.AssembleRegister | as240.py:988-1009 | 3 binary digits whose value is the register number |
| Encoder.AssembleField | as240.py:1011-1023 | 3 binary digits: 0 for `zero`, otherwise the named operand's register number |
| Encoder.MachineCode | as240.py:979-983 | 16 binary digits |
| Encoder.Word1 | as240.py:979-984 | the word is class code · 512 + field1 · 64 + field2 · 8 + field3, below 0x10000 |
| Encoder.Word1Decodes | as240.py:979-984 | the class code and the three fields read back from the word by division and remainder |
| Encoder.OperandValue | as240.py:1038-1042 | a hex literal gives its value; anything else is looked up in the table |
| Encoder.DwWordSpec | as240.py:970-975 | (corrected) `.DW` with a literal gives its value, with a label in the table gives its binding, and otherwise fails with UndefinedLabel |
| Encoder.DwWordAgrees | as240.py:970-975 | where the corrected `.DW` gives a word, the code as written gives the same word, if the table holds only label-shaped names |
| Encoder.DwAsWrittenCounterexamples | as240.py:970-975 | as written: an undefined label `ABC` becomes 0xBC, a bare `.DW` raises TypeError, and an undefined `XYZ` raises ValueError |
| Encoder.PyInt16Digits | as240.py:974 | `int(t, 16)` accepts hex digits with single underscores between them, and reads the digits |
| Encoder.ValidatedIsEncodable | as240.py:719-777 | a line that passes either opcode check can be assembled: its register fields name registers |
| Encoder.EncodeInstruction | as240.py:977-986 | an instruction's first word is its `Word1`; it has a second word exactly when long, and that word is the named operand's value |
| Encoder.EncodeErrors | as240.py:966-1064 | (corrected `.DW`) `assemble` fails only with UndefinedLabel on the line's own number, and only for `.DW` or a long instruction |
| Encoder.MemLocs | as240.py:577-589 | one location per word present (none, one or two): `(address, word1)` first when there is a first word, `(address + 2, word2)` last when there is a second |
| AsmLines.AdmittedIsEncodable | as240.py:701-711 | a line that passed the opcode checks can be assembled |
| AsmLines.LabelBinding | as240.py:785-790 | on `.EQU` a label is bound to `int(operand1[1:], 16)` of its literal (below 0x10000), otherwise to the line's address |
| AsmLines.ValidateLineSpec | as240.py:701-716 | (corrected operand count) a line is accepted exactly when it passes the opcode checks, its label is a `\w+` word not yet in the table, and it has an address or is `.ORG`/`.EQU`; an accepted line adds only its own label; an error carries the line's number |
| AsmLines.RejectedLineTable | as240.py:701-716 | a rejected line leaves the table unchanged, except a MissingOrigin rejection, which has already registered the label |
| AsmLines.OriginFailureStillRegisters | as240.py:712-716 | a label before any `.ORG` is rejected with MissingOrigin but is still entered, bound to `None` |
| AsmLines.AcceptedIsPlaced | as240.py:701-716 | an accepted line can be assembled and has an address where one is needed |
| AsmLines.NextAddress | as240.py:946-964 | `.ORG $N` sets the address to N (below 0x10000); any other line keeps the address absent or present; from an address, `.EQU` and a line without an opcode advance by 0, `.DW` by 2 and an instruction by its `operation_size` |
| AsmLines.AdvanceCoversWords | as240.py:946-964 | apart from `.ORG`, the address advances by exactly two bytes per word the line assembles to |
| AsmLines.InstructionWords | as240.py:297-301 | an instruction assembles to `operation_size / 2` words |
| AsmLines.DirectiveWords | as240.py:970-975 | `.DW` assembles to exactly one word, and `next_mem_address` advances past it by two bytes |
| AsmLines.AsmLine.constructor | as240.py:501-517 | a line records its text, number, address and fields, and has no words yet |
| AsmLines.AsmLine.NextMemAddress | as240.py:946-964 | equals `NextAddress` of the line's fields and address |
| AsmLines.AsmLine.Assemble | as240.py:966-986 | (corrected `.DW`) sets the words to `Encode` of the fields against the table; on an undefined label it reports the error, after `word1` of a long instruction has been set |
| AsmLines.AsmLine.Locs | as240.py:577-589 | one location per word present: `(address, word1)` first, `(address + 2, word2)` last |
| AsmLines.NewAsmLine | as240.py:501-517 | (corrected operand count) a line that cannot be cut up is a ParseError; otherwise the outcome and the new table are those of `ValidateLine`, and an accepted line is a fresh valid `AsmLine` without words |
| MemImage.InsertPermutes | as240.py:1262-1263 | inserting adds exactly the one entry |
| MemImage.InsertSorted | as240.py:1262-1263 | inserting into a sorted list keeps it sorted |
| MemImage.InsertWithAddress | as240.py:1262-1263 | inserting keeps the order among entries with equal addresses (a stable sort) |
| MemImage.SortSpec | as240.py:1262-1263 | `sorted(locs, key=address)`: sorted, a permutation, and stable at every address |
| MemImage.CreateMemFile | as240.py:1259-1271 | the words printed are `Image(locs)` |
| MemImage.SortedDistinctIncreasing | as240.py:1262-1263 | sorted with distinct addresses means strictly increasing |
| MemImage.FillLength | as240.py:1264-1271 | from an even start, the fill of increasing even addresses reaches the last one |
| MemImage.FillContents | as240.py:1264-1271 | the fill holds at each position the value stored at that address, or 0 |
| MemImage.ImageContents | as240.py:1259-1271 | for even, distinct addresses the image has `last / 2 + 1` words, and word i is the value at address 2i, or 0 |
| MemImage.OverlapShifts | as240.py:1264-1271 | two values at one address are both printed, so every later word shifts down one place |
| Driver.ScanPlaced | as240.py:1310-1321 | pass 1 keeps only lines that can be assembled |
| Driver.ScanTooManyErrors | as240.py:1316-1324 | pass 1 gives up exactly at the sixth error, having kept the earlier ones; a finished scan has at most five |
| Driver.ScanKeepsLines | as240.py:1310-1321 | pass 1 finishes only if every line could be cut up |
| Driver.ScanErrorFree | as240.py:1310-1321 | an error-free pass 1 keeps every line, numbers it by position, starts without an address, feeds each line's next address into the next line, and binds exactly the labels it met, each once |
| Driver.ThreadedStep | as240.py:1312-1315 | an accepted line keeps the records numbered and chained by `next_mem_address` |
| Driver.LabelsBoundStep | as240.py:1312-1315 | an accepted line keeps the table equal to the records' labels |
| Driver.LabelsBoundAllBound | as240.py:931-944 | after an error-free pass 1 every label has a value (no `None`) |
| Driver.ForwardReference | as240.py:1335-1340 | a long instruction naming a label resolves to that label's binding, whether it is defined before or after the instruction |
| Driver.EmitErrors | as240.py:1335-1340 | pass 2 fails only with UndefinedLabel, on the number of one of its lines |
| Driver.EmitStep | as240.py:1335-1340 | pass 2 takes each line's words in order, adding locations only for a line that produced a word |
| Driver.RunOutcomes | as240.py:1299-1343 | a run ends with six errors, with one to five errors after the scan, with an undefined label, or with an image of a file whose every line was cut up and whose every label is bound |
| Driver.ScanErrorLines | as240.py:1310-1321 | counting every line, the errors name strictly increasing lines and a finished scan stands one past the last line |
| Driver.RejectedLinesMisnumbered | as240.py:1310-1321 | as written, two bad lines are both reported as line 1; counting every line reports lines 1 and 2 |
| Driver.FirstPass | as240.py:1310-1321 | the pass-1 loop computes `Scan` from the start state, with the corrected line count; on success its lines mirror the records and the table is the scanned one |
| Driver.SecondPass | as240.py:1335-1340 | the pass-2 loop computes `Emit` over the records |
| Driver.Run | as240.py:1299-1343 | `main` computes `RunSpec` of the source lines, where `RunSpec` is `main` with the three corrections under "Findings": every line advances the line count, a surplus operand is an error, and `.DW` of an undefined label is UndefinedLabel |
| Vectors.AddVector | test/test_as240.py:45-51 | `ADD R2,R4,R1` is 0x00A1 |
| Vectors.StopVector | test/test_as240.py:19-25 | `STOP` is 0xFE00 |
| Vectors.MvVector | test/test_as240.py:37-43 | `MV R7,R0` is 0x21C0 |
| Vectors.SwVector | test/test_as240.py:612-630 | `SW R5,R7,$2000` is 0x382F followed by 0x2000 |
| Vectors.BraVector | as240.py:1025-1042 | `BRA DONE` with `DONE` bound to 0x104 is 0xF800 followed by 0x104, the label's value as second word |
| Vectors.LwUndefinedVector | as240.py:1038-1042 | `LW R7,R0,X` with `X` undefined fails with UndefinedLabel on its line |
| Vectors.OrgSourceDecomposes | as240.py:688-693 | ` .ORG $100` fails every earlier layout (no comma, more than one word) and is read by the indented one-operand layout, the last one |
| Vectors.BraSourceDecomposes | as240.py:688-693 | ` BRA done` is read the same way, its operand upper-cased to `DONE` |
| Vectors.StopSourceDecomposes | as240.py:609-623 | `done STOP` fails the label-only layout and is read as label `DONE` and opcode `STOP` |
| Vectors.ProgramSourceParsed | as240.py:1310-1312 | the three source lines decompose to the program's fields |
| Vectors.ProgramScan | as240.py:1310-1321 | pass 1 on `.ORG $100 / BRA DONE / DONE STOP` binds `DONE` to 0x104 |
| Vectors.ProgramEmit | as240.py:1335-1340 | pass 2 on that program gives (0x100, 0xF800), (0x102, 0x104), (0x104, 0xFE00) |
| Vectors.ProgramRun | as240.py:1299-1343 | the whole run on the source text ` .ORG $100`, ` BRA done`, `done STOP` assembles, with `DONE` bound to 0x104 and the three locations as its image |

## Left out

- Command-line handling (as240.py:1120-1256) and all file and stream I/O:
  opening and closing files, printing errors to stderr, and `sys.exit`.
  A run's result is a `RunResult` value instead, whose error cases carry the
  errors (and thus the exit status).
- Text formatting: the listing (`__str__`, `__format_operands`,
  as240.py:519-574, and the header rows at as240.py:1332-1333), the
  symbol-table printout (as240.py:1074-1105), the MIF file
  (as240.py:1273-1297) and the `{:04X}` rendering of memory words. Pass 2 adds
  a line's locations when it produced a word. That is the case where its
  listing string is non-empty.
- Error message text. Errors are a line number and an error kind.
- `exit()` in `mem_locs` for an invalid line (as240.py:582-584). Only valid
  lines ever reach it, and `AsmLine.Locs` requires an address whenever a word
  is present.
- The `ValueError("DEBUG: ...")` branches (as240.py:776, 1009, 1023, 1036).
  The catalog lemmas show that they cannot be reached.
- Character classes are ASCII only. `\s` is space, `\t\n\v\f\r` and
  `\x1c`-`\x1f`. `\w` is ASCII letters, digits and `_`. `.upper()` maps only
  `a`-`z`. Non-ASCII text is not modelled.
- The regex engine in general. The ten line shapes are written out as
  functions that follow the engine's greedy backtracking order.
- `SymbolTable` is a class attribute shared by every run in Python. Here it is
  an object created per run; `Clear` is modelled but `Run` does not need it.
- Python's general `int(s, 16)` is modelled only as far as `.DW` can reach
  it: hex digits with single underscores, and the two exceptions it raises.
- Driver.Run: the run it is proved equal to, `RunSpec`, is `main` with the
  three corrections listed under "Findings" (the line count of
  `Driver.Scan`, `Validator.CheckOpcode` for the operand count, and
  `Encoder.DwWord` for `.DW`). The as-written behaviours are modelled
  beside them (`Driver.RejectedLinesMisnumbered`,
  `Validator.CheckOpcodeAsWritten`, `Encoder.DwWordAsWritten`) but no run
  is built from them.
- AsmLines.NextAddress: addresses are unbounded `nat`s, with no 16-bit
  mask, as in the source (as240.py:946-964). The first word of an
  instruction, hex literals and `.EQU` values are below 0x10000. A label
  that is not `.EQU` is bound to its line's address, though, and that can
  reach 0x10000 or more (`.ORG $FFFE`, two `STOP` lines, then a label).
  A second word or a `.DW` word that names such a label is then 0x10000 or
  more. The source does not mask these either (as240.py:1038-1042,
  1057-1064).
- AsmLines.ValidateLineSpec: acceptance goes through `Validator.CheckOpcode`,
  the corrected operand count, not `Validator.CheckOpcodeAsWritten`, so
  `MV R1,R2,R3`, which `__validate` accepts, is rejected here.
- AsmLines.NewAsmLine: its outcome is that of `ValidateLine`, so it too uses
  the corrected `Validator.CheckOpcode` rather than the as-written check.
- Encoder.EncodeErrors: `Encode` uses the corrected `Encoder.DwWord`, not
  `Encoder.DwWordAsWritten`. The source's `.DW` never reports
  UndefinedLabel. It raises TypeError for a bare `.DW` and ValueError for
  an undefined non-hex label, and reads an undefined label such as `ABC`
  as hex.
- AsmLines.AsmLine.Assemble: like `Encode`, it uses the corrected
  `Encoder.DwWord`, so a bare `.DW` gives a zero word and an undefined label
  gives UndefinedLabel, where the source raises or falls back to
  `int(operand1[1:], 16)`.

## Findings

| source | as written | input that shows it | evidently intended | confidence | as-written member | corrected member |
|---|---|---|---|---|---|---|
| as240.py:743-753 | a two-operand instruction checks only that operands 1 and 2 are present, so a third operand is accepted and silently dropped | `MV R1,R2,R3` | an operand count different from the arity is a syntax error, as it is for zero- and one-operand instructions | not executed | Validator.CheckOpcodeAsWritten (Validator.SurplusOperandAccepted) | Validator.CheckOpcode (Validator.CheckOpcodeSpec) |
| as240.py:970-975 | `.DW` looks the operand up and, on any lookup error, falls back to `int(operand1[1:], 16)` | `.DW ABC` with `ABC` undefined assembles to 0xBC; a bare `.DW` raises TypeError; `.DW XYZ` undefined raises ValueError | a hex literal gives its value; an undefined label is an UndefinedLabel syntax error; a bare `.DW` is a zero word | not executed | Encoder.DwWordAsWritten (Encoder.DwAsWrittenCounterexamples) | Encoder.DwWord (Encoder.DwWordSpec) |
| as240.py:1310-1321 | `line_number += 1` sits inside the `try`, after `AsmLine(...)`, so a rejected line does not advance the line counter | two lines with an unknown mnemonic, both reported as line 1 | every source line advances the counter, so each error names its own line | not executed | Driver.Scan with `countRejected` false (Driver.RejectedLinesMisnumbered) | Driver.Scan with `countRejected` true (Driver.ScanErrorLines) |
