/** Worked examples: the words `assemble` produces for a few instructions,
    and pass 1 and pass 2 on a three-line program that branches forward to
    a label. */
module Vectors {
  import opened Wrappers
  import opened Chars
  import opened Errors
  import opened Opcodes
  import opened Validator
  import opened Symbols
  import opened Encoder
  import opened Decomposer
  import opened AsmLines
  import opened MemImage
  import opened Driver

  /** `ADD R2,R4,R1`: class code 0, fields 2, 4 and 1. */
  lemma AddVector()
    ensures Encodable(Some("ADD"), ["R2", "R4", "R1"])
    ensures Encode(Some("ADD"), ["R2", "R4", "R1"], map[], 1) == Success(Words(Some(0x00A1), None))
  {
    AddFirstWord();
  }

  /** The first word of `ADD R2,R4,R1`: class `0000000` and the three registers in fields 1, 2 and 3. */
  lemma AddFirstWord()
    ensures Word1(Info("ADD"), ["R2", "R4", "R1"]) == 0x00A1
  {
    var ops := ["R2", "R4", "R1"];
    var d := Info("ADD");
    assert d == Descriptor(Short, Op(1), Op(2), Op(3), None, 3, [Register, Register, Register], "0000000");
    BinValueSeven("0000000");
    assert IsRegister(ops[0]) && IsRegister(ops[1]) && IsRegister(ops[2]);
    assert RegisterIndex(ops[0]) == 2 && RegisterIndex(ops[1]) == 4 && RegisterIndex(ops[2]) == 1;
  }

  /** `STOP`: the class code `1111111` and three zero fields. */
  lemma StopVector()
    ensures Encodable(Some("STOP"), [])
    ensures Encode(Some("STOP"), [], map[], 1) == Success(Words(Some(0xFE00), None))
  {
    var d := Info("STOP");
    assert d == Descriptor(Short, Zero, Zero, Zero, None, 0, [], "1111111");
    BinValueSeven("1111111");
    assert Word1(d, []) == 0xFE00;
  }

  /** `MV R7,R0`: the destination in field 1, the source in field 2. */
  lemma MvVector()
    ensures Encodable(Some("MV"), ["R7", "R0"])
    ensures Encode(Some("MV"), ["R7", "R0"], map[], 1) == Success(Words(Some(0x21C0), None))
  {
    MvFirstWord();
  }

  /** The first word of `MV R7,R0`: class `0010000`, R7 in field 1 and R0 in field 2. */
  lemma MvFirstWord()
    ensures Word1(Info("MV"), ["R7", "R0"]) == 0x21C0
  {
    var ops := ["R7", "R0"];
    var d := Info("MV");
    assert d == Descriptor(Short, Op(1), Op(2), Zero, None, 2, [Register, Register], "0010000");
    BinValueSeven("0010000");
    assert IsRegister(ops[0]) && IsRegister(ops[1]);
    assert RegisterIndex(ops[0]) == 7 && RegisterIndex(ops[1]) == 0;
  }

  /** `$2000` reads as 0x2000. */
  lemma Hex2000()
    ensures IsHexLiteral("$2000") && HexLiteralValue("$2000") == 0x2000
  {
    var d := "$2000"[1..];
    assert d == "2000" && AllHexDigits(d);
    assert d[..3] == "200" && "200"[..2] == "20" && "20"[..1] == "2" && "2"[..0] == [];
    assert HexValue("2") == 2;
    assert HexValue("20") == 0x20;
    assert HexValue("200") == 0x200;
    assert HexValue(d) == 0x2000;
  }

  /** `SW R5,R7,$2000`: the registers go in fields 2 and 3, and the
      literal is the second word. */
  lemma SwVector()
    ensures Encodable(Some("SW"), ["R5", "R7", "$2000"])
    ensures Encode(Some("SW"), ["R5", "R7", "$2000"], map[], 1) == Success(Words(Some(0x382F), Some(0x2000)))
  {
    SwDescriptor();
    SwFirstWord();
    SwSecondWord();
  }

  lemma SwDescriptor()
    ensures Info("SW") == Descriptor(Long, Zero, Op(1), Op(2), Some(Op(3)), 3, [Register, Register, Number], "0011100")
  {
  }

  /** The first word of `SW R5,R7,$2000`: class `0011100`, R5 in field 2, R7 in field 3. */
  lemma SwFirstWord()
    ensures Word1(Info("SW"), ["R5", "R7", "$2000"]) == 0x382F
  {
    var ops := ["R5", "R7", "$2000"];
    SwDescriptor();
    BinValueSeven("0011100");
    assert IsRegister(ops[0]) && IsRegister(ops[1]);
    assert RegisterIndex(ops[0]) == 5 && RegisterIndex(ops[1]) == 7;
  }

  /** The second word of `SW R5,R7,$2000` is the hexadecimal literal. */
  lemma SwSecondWord()
    ensures AssembleLong(Info("SW"), ["R5", "R7", "$2000"], map[], 1) == Success(Some(0x2000))
  {
    SwDescriptor();
    Hex2000();
  }

  /** `LW R7,R0,X` with `X` undefined: pass 2 aborts on line 4. */
  lemma LwUndefinedVector()
    ensures Encodable(Some("LW"), ["R7", "R0", "X"])
    ensures Encode(Some("LW"), ["R7", "R0", "X"], map[], 4) == Failure(SyntaxError(4, UndefinedLabel))
  {
    var ops := ["R7", "R0", "X"];
    var d := Info("LW");
    assert d == Descriptor(Long, Op(1), Op(2), Zero, Some(Op(3)), 3, [Register, Register, Number], "0010100");
    assert IsRegister(ops[0]) && IsRegister(ops[1]) && !IsHexLiteral(ops[2]);
    assert AssembleLong(d, ops, map[], 4) == Failure(SyntaxError(4, UndefinedLabel));
  }

  /** The three lines of the program
        .ORG $100
        BRA done
        done STOP
      which branches forward to a label defined on its last line. The
      decomposer upper-cases the label, so the fields name `DONE`. */
  function ProgramSource(): seq<string> {
    [" .ORG $100", " BRA done", "done STOP"]
  }

  const OrgLine := Fields(None, Some(".ORG"), ["$100"])
  const BraLine := Fields(None, Some("BRA"), ["DONE"])
  const StopLine := Fields(Some("DONE"), Some("STOP"), [])

  function Program(): (lines: seq<Option<Fields>>)
    ensures |lines| == 3
  {
    [Some(OrgLine), Some(BraLine), Some(StopLine)]
  }

  lemma HexVector()
    ensures IsHexLiteral("$100") && HexLiteralValue("$100") == 0x100
  {
    var d := "$100"[1..];
    assert d == "100" && AllHexDigits(d);
    assert d[..2] == "10" && "10"[..1] == "1" && "1"[..0] == [];
    assert HexValue("1") == 1;
    assert HexValue("10") == 16;
    assert HexValue(d) == 0x100;
  }

  /** `.ORG $100` is accepted before any origin and sets the address. */
  lemma OrgLineAccepted()
    ensures ValidateLine(OrgLine, 1, None, map[]) == (None, map[])
    ensures Admitted(OrgLine) && NextAddress(OrgLine, None) == Some(0x100)
  {
    HexVector();
  }

  /** `BRA DONE` is accepted with `DONE` still undefined, and takes four bytes. */
  lemma BraLineAccepted()
    ensures ValidateLine(BraLine, 2, Some(0x100), map[]) == (None, map[])
    ensures Admitted(BraLine) && NextAddress(BraLine, Some(0x100)) == Some(0x104)
  {
    assert ValidOpcode("BRA") && Info("BRA").format == Long;
    assert IsLabelWord("DONE") && !IsHexLiteral("DONE");
  }

  /** `DONE STOP` binds `DONE` to its own address. */
  lemma StopLineAccepted()
    ensures ValidateLine(StopLine, 3, Some(0x104), map[]) == (None, map["DONE" := Some(0x104)])
    ensures Admitted(StopLine) && NextAddress(StopLine, Some(0x104)) == Some(0x106)
  {
    assert IsLabelWord("DONE") && ValidOpcode("STOP") && Info("STOP").format == Short;
  }

  /** An indented line whose opcode is followed by one comma-free operand
      fails every earlier layout and matches the last one. */
  lemma IndentedOneOperand(t: string, r: string, opc: string, operand: string)
    requires t != [] && IsSpace(t[0]) && Indent(t) == Some(r)
    requires Lead(r) == Some((opc, operand)) && Final(r).None?
    requires ',' !in operand && Final(operand) == Some(operand)
    ensures Cascade(t) == Some(Fields(None, Some(opc), [operand]))
  {
    NoCommaNoOperands(operand, 3);
    NoCommaNoOperands(operand, 2);
    FirstMatchAt(Shapes(t), 8);
  }

  /** A word alone on the rest of a line. */
  lemma FinalWord(s: string)
    requires IsToken(s)
    ensures Final(s) == Some(s)
  {
    WordLenIs(s, |s|);
    assert s[..|s|] == s && s[|s|..] == [];
  }

  /** `w`, whitespace, then `rest` starting with a non-whitespace character. */
  lemma LeadWord(s: string, w: string, rest: string)
    requires IsToken(w) && s == w + " " + rest && rest != [] && !IsSpace(rest[0])
    ensures Lead(s) == Some((w, rest)) && Final(s).None?
  {
    var n := |w|;
    assert forall i | 0 <= i < n :: s[i] == w[i];
    assert s[n] == ' ';
    WordLenIs(s, n);
    assert s[..n] == w && s[n..] == " " + rest;
    assert (" " + rest)[1..] == rest;
    assert SkipSpace(" " + rest) == SkipSpace(rest) == rest;
    assert !IsSpace(s[n..][1]);
  }

  /** A line in the label column holding a label and a lone opcode fails the
      label-only layout and matches the label-and-opcode one, the second. */
  lemma LabelledOpcode(t: string, l: string, o: string)
    requires Lead(t) == Some((l, o)) && Final(t).None? && Final(o) == Some(o)
    ensures Cascade(t) == Some(Fields(Some(l), Some(o), []))
  {
    FirstMatchAt(Shapes(t), 1);
  }

  /** A non-blank line without a comment decomposes to its cascade's fields,
      upper-cased. */
  lemma DecomposeLine(t: string, f: Fields)
    requires ';' !in t && !AllSpace(t) && Cascade(t) == Some(f)
    ensures Decompose(t) == Some(UpperFields(f))
  {
    StripNoComment(t);
  }

  /** `.ORG $100` on an indented line: the cascade fails on every layout
      with two or three operands (there is no comma) and on the bare-opcode
      layout, and matches the indented one-operand layout, the last one. */
  lemma OrgSourceDecomposes()
    ensures Decompose(" .ORG $100") == Some(OrgLine)
  {
    var f := Fields(None, Some(".ORG"), ["$100"]);
    OrgSourceText();
    OrgCascade();
    DecomposeLine(" .ORG $100", f);
    UpperKeeps(".ORG");
    UpperKeeps("$100");
    assert UpperFields(f).operands == ["$100"];
  }

  lemma OrgCascade()
    ensures Cascade(" .ORG $100") == Some(Fields(None, Some(".ORG"), ["$100"]))
  {
    OrgSourceText();
    LeadWord(".ORG $100", ".ORG", "$100");
    FinalWord("$100");
    IndentedOneOperand(" .ORG $100", ".ORG $100", ".ORG", "$100");
  }

  lemma OrgSourceText()
    ensures var t := " .ORG $100";
      && ';' !in t && !AllSpace(t) && IsSpace(t[0]) && Indent(t) == Some(".ORG $100")
      && IsToken(".ORG") && IsToken("$100") && ".ORG $100" == ".ORG" + " " + "$100"
      && ',' !in "$100" && IsUpperCase(".ORG") && IsUpperCase("$100")
  {
    var t := " .ORG $100";
    assert !IsSpace(t[1]);
    assert t[1..] == ".ORG $100";
  }

  /** `BRA done` on an indented line: the indented one-operand layout, with
      the label upper-cased. */
  lemma BraSourceDecomposes()
    ensures Decompose(" BRA done") == Some(BraLine)
  {
    BraSourceText();
    BraCascade();
    DecomposeLine(" BRA done", Fields(None, Some("BRA"), ["done"]));
    UpperOneOperand("BRA", "done");
    UpperKeeps("BRA");
    UpperDone();
  }

  lemma BraCascade()
    ensures Cascade(" BRA done") == Some(Fields(None, Some("BRA"), ["done"]))
  {
    BraSourceText();
    LeadWord("BRA done", "BRA", "done");
    FinalWord("done");
    IndentedOneOperand(" BRA done", "BRA done", "BRA", "done");
  }

  lemma BraSourceText()
    ensures var t := " BRA done";
      && ';' !in t && !AllSpace(t) && IsSpace(t[0]) && Indent(t) == Some("BRA done")
      && IsToken("BRA") && IsToken("done") && "BRA done" == "BRA" + " " + "done"
      && ',' !in "done" && IsUpperCase("BRA")
  {
    var t := " BRA done";
    assert !IsSpace(t[1]);
    assert t[1..] == "BRA done";
  }

  /** `done STOP` in the label column: the label-only layout fails and the
      label-and-opcode layout, the second one tried, matches. */
  lemma StopSourceDecomposes()
    ensures Decompose("done STOP") == Some(StopLine)
  {
    var t := "done STOP";
    StopSourceText();
    LeadWord(t, "done", "STOP");
    FinalWord("STOP");
    LabelledOpcode(t, "done", "STOP");
    var f := Fields(Some("done"), Some("STOP"), []);
    DecomposeLine(t, f);
    UpperDone();
    UpperKeeps("STOP");
  }

  lemma StopSourceText()
    ensures var t := "done STOP";
      && ';' !in t && !AllSpace(t) && IsToken("done") && IsToken("STOP")
      && t == "done" + " " + "STOP" && IsUpperCase("STOP")
  {
    assert !IsSpace("done STOP"[0]);
  }

  lemma UpperOneOperand(o: string, x: string)
    ensures UpperFields(Fields(None, Some(o), [x])) == Fields(None, Some(Upper(o)), [Upper(x)])
  {
    assert UpperFields(Fields(None, Some(o), [x])).operands == [Upper(x)];
  }

  lemma ParsedThree(a: string, b: string, c: string)
    ensures Parsed([a, b, c]) == [Decompose(a), Decompose(b), Decompose(c)]
  {
  }

  lemma UpperKeeps(s: string)
    requires IsUpperCase(s)
    ensures Upper(s) == s
  {
  }

  lemma UpperDone()
    ensures Upper("done") == "DONE"
  {
    assert ToUpper('d') == 'D' && ToUpper('o') == 'O' && ToUpper('n') == 'N' && ToUpper('e') == 'E';
  }

  /** The source text decomposes to the program's fields. */
  lemma ProgramSourceParsed()
    ensures Parsed(ProgramSource()) == Program()
  {
    ParsedThree(" .ORG $100", " BRA done", "done STOP");
    OrgSourceDecomposes();
    BraSourceDecomposes();
    StopSourceDecomposes();
  }

  const OrgRecord := Record(OrgLine, 1, None)
  const BraRecord := Record(BraLine, 2, Some(0x100))
  const StopRecord := Record(StopLine, 3, Some(0x104))

  /** The records pass 1 keeps for the program. */
  function ProgramRecords(): seq<Record> {
    [OrgRecord, BraRecord, StopRecord]
  }

  /** The program's lines are placed at their addresses. */
  lemma ProgramPlaced()
    ensures AllPlaced([StopRecord]) && AllPlaced([BraRecord, StopRecord]) && AllPlaced(ProgramRecords())
  {
    OrgLineAccepted();
    BraLineAccepted();
    StopLineAccepted();
    AdmittedIsEncodable(OrgLine);
    AdmittedIsEncodable(BraLine);
    AdmittedIsEncodable(StopLine);
    assert Placed(OrgLine, None) && Placed(BraLine, Some(0x100)) && Placed(StopLine, Some(0x104));
  }

  /** Pass 1 on the program: `.ORG` sets the address to 0x100, `BRA` takes
      four bytes, so `DONE` is bound to 0x104. */
  lemma ProgramScan()
    ensures Scan(Program(), Start, true) == ScanDone(Pass1(4, Some(0x106), ProgramRecords(), [], Labels))
  {
    var p := Program();
    var rs := ProgramRecords();
    OrgLineAccepted();
    BraLineAccepted();
    StopLineAccepted();
    assert p[0] == Some(OrgLine) && p[1..] == [Some(BraLine), Some(StopLine)];
    assert p[1..][1..] == [Some(StopLine)] && p[1..][1..][1..] == [];
    var s1 := Pass1(2, Some(0x100), rs[..1], [], map[]);
    var s2 := Pass1(3, Some(0x104), rs[..2], [], map[]);
    assert s1.records == Start.records + [rs[0]];
    assert s2.records == s1.records + [rs[1]];
    assert rs == s2.records + [rs[2]];
    assert Scan(p, Start, true) == Scan(p[1..], s1, true);
    assert Scan(p[1..], s1, true) == Scan(p[1..][1..], s2, true);
  }

  /** `BRA DONE` with `DONE` at 0x104: the class code `1111100` and the
      label's address as second word. */
  lemma BraVector()
    ensures Encodable(Some("BRA"), ["DONE"])
    ensures Encode(Some("BRA"), ["DONE"], map["DONE" := Some(0x104)], 2) == Success(Words(Some(0xF800), Some(0x104)))
  {
    var d := Info("BRA");
    assert d == Descriptor(Long, Zero, Zero, Zero, Some(Op(1)), 1, [Number], "1111100");
    BinValueSeven("1111100");
    assert Word1(d, ["DONE"]) == 0xF800;
    assert !IsHexLiteral("DONE");
    assert AssembleLong(d, ["DONE"], map["DONE" := Some(0x104)], 2) == Success(Some(0x104));
  }

  const Labels: Table := map["DONE" := Some(0x104)]

  /** `.ORG` emits nothing. */
  lemma EmitOrg()
    ensures AllPlaced(ProgramRecords()) && AllPlaced([BraRecord, StopRecord])
    ensures Emit(ProgramRecords(), Labels, []) == Emit([BraRecord, StopRecord], Labels, [])
  {
    ProgramPlaced();
    var rs := ProgramRecords();
    assert rs[1..] == [BraRecord, StopRecord];
    assert Encode(Some(".ORG"), ["$100"], Labels, 1) == Success(NoWords);
    EmitStep(rs, Labels, [], NoWords);
    var none: seq<Loc> := [];
    assert none + none == none;
  }

  /** `BRA DONE` emits its two words at 0x100 and 0x102. */
  lemma EmitBra()
    ensures AllPlaced([BraRecord, StopRecord]) && AllPlaced([StopRecord])
    ensures Emit([BraRecord, StopRecord], Labels, []) == Emit([StopRecord], Labels, [(0x100, 0xF800), (0x102, 0x104)])
  {
    ProgramPlaced();
    var rs := [BraRecord, StopRecord];
    assert rs[1..] == [StopRecord];
    BraVector();
    var w := Words(Some(0xF800), Some(0x104));
    assert RecordLocs(BraRecord, w) == [(0x100, 0xF800), (0x102, 0x104)];
    EmitStep(rs, Labels, [], w);
    var none: seq<Loc> := [];
    assert none + RecordLocs(BraRecord, w) == [(0x100, 0xF800), (0x102, 0x104)];
  }

  /** `DONE STOP` emits its word at 0x104. */
  lemma EmitStop(locs: seq<Loc>)
    ensures AllPlaced([StopRecord])
    ensures Emit([StopRecord], Labels, locs) == Success(locs + [(0x104, 0xFE00)])
  {
    ProgramPlaced();
    StopVector();
    var w := Words(Some(0xFE00), None);
    assert Encode(Some("STOP"), [], Labels, 3) == Success(w);
    assert RecordLocs(StopRecord, w) == [(0x104, 0xFE00)];
    assert [StopRecord][1..] == [];
    EmitStep([StopRecord], Labels, locs, w);
  }

  /** Pass 2 on the program: `BRA` is `0xF800` followed by the address of
      `DONE`, defined after it; `.ORG` produces no word. */
  lemma ProgramEmit()
    ensures AllPlaced(ProgramRecords())
    ensures Emit(ProgramRecords(), Labels, []) == Success([(0x100, 0xF800), (0x102, 0x104), (0x104, 0xFE00)])
  {
    EmitOrg();
    EmitBra();
    EmitStop([(0x100, 0xF800), (0x102, 0x104)]);
    assert [(0x100, 0xF800), (0x102, 0x104)] + [(0x104, 0xFE00)] == [(0x100, 0xF800), (0x102, 0x104), (0x104, 0xFE00)];
  }

  /** The whole run on the program's source text: it assembles, with
      `DONE` bound to 0x104. */
  lemma ProgramRun()
    ensures RunSpec(ProgramSource()) == Assembled(Labels, [(0x100, 0xF800), (0x102, 0x104), (0x104, 0xFE00)],
                                                  Image([(0x100, 0xF800), (0x102, 0x104), (0x104, 0xFE00)]))
  {
    ProgramSourceParsed();
    ProgramScan();
    ProgramEmit();
  }
}
