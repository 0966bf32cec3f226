/** The two passes of `main`. Pass 1 builds an `AsmLine` for each source
    line, counting syntax errors (giving up after the sixth) and filling the
    symbol table; pass 2, which runs only when pass 1 found no error,
    assembles every line against the finished table and collects the
    `(address, word)` pairs for the memory image. */
module Driver {
  import opened Wrappers
  import opened Errors
  import opened Opcodes
  import opened Validator
  import opened Symbols
  import opened Encoder
  import opened Decomposer
  import opened AsmLines
  import opened MemImage

  /** `MAX_SYNTAX_ERRORS`: the run gives up at the error after this many. */
  const MaxSyntaxErrors: nat := 5

  /** What pass 1 keeps of an accepted line. */
  datatype Record = Record(fields: Fields, lineNumber: nat, address: Option<nat>)

  predicate AllPlaced(records: seq<Record>) {
    forall k | 0 <= k < |records| :: Placed(records[k].fields, records[k].address)
  }

  /** The state of pass 1 between lines. */
  datatype Pass1 = Pass1(
    lineNumber: nat,
    address: Option<nat>,
    records: seq<Record>,
    errors: seq<SyntaxError>,
    table: Table)

  /** How pass 1 ends: an undecomposable line (the uncaught `ParseError`),
      too many syntax errors (`sys.exit`), or the end of the source. */
  datatype Scanned = ScanParseError(line: nat) | ScanTooMany(errors: seq<SyntaxError>) | ScanDone(state: Pass1)

  const Start := Pass1(1, None, [], [], map[])

  /** The decomposition of every source line (`None` where it fails). */
  function Parsed(source: seq<string>): (p: seq<Option<Fields>>)
    ensures |p| == |source| && forall i | 0 <= i < |source| :: p[i] == Decompose(source[i])
  {
    seq(|source|, i requires 0 <= i < |source| => Decompose(source[i]))
  }

  /** Pass 1 over the remaining (decomposed) lines. With `countRejected`
      false it is the loop as written, where a rejected line does not advance
      the line number; with `countRejected` true every line advances it. */
  function Scan(lines: seq<Option<Fields>>, st: Pass1, countRejected: bool): Scanned
    decreases |lines|
  {
    if lines == [] then ScanDone(st)
    else match lines[0]
      case None => ScanParseError(st.lineNumber)
      case Some(f) =>
        var v := ValidateLine(f, st.lineNumber, st.address, st.table);
        if v.0.Some? then
          var errors := st.errors + [v.0.value];
          if |errors| > MaxSyntaxErrors then ScanTooMany(errors)
          else
            var n := if countRejected then st.lineNumber + 1 else st.lineNumber;
            Scan(lines[1..], st.(lineNumber := n, errors := errors, table := v.1), countRejected)
        else
          AcceptedIsPlaced(f, st.lineNumber, st.address, st.table);
          var rec := Record(f, st.lineNumber, st.address);
          Scan(lines[1..], Pass1(st.lineNumber + 1, NextAddress(f, st.address), st.records + [rec], st.errors, v.1), countRejected)
  }

  /** Pass 1 only keeps placed lines. */
  lemma {:induction false} ScanPlaced(lines: seq<Option<Fields>>, st: Pass1, countRejected: bool)
    requires AllPlaced(st.records)
    ensures Scan(lines, st, countRejected).ScanDone? ==> AllPlaced(Scan(lines, st, countRejected).state.records)
    decreases |lines|
  {
    if lines != [] && lines[0].Some? {
      var f := lines[0].value;
      var v := ValidateLine(f, st.lineNumber, st.address, st.table);
      if v.0.Some? {
        var errors := st.errors + [v.0.value];
        if |errors| <= MaxSyntaxErrors {
          var n := if countRejected then st.lineNumber + 1 else st.lineNumber;
          ScanPlaced(lines[1..], st.(lineNumber := n, errors := errors, table := v.1), countRejected);
        }
      } else {
        AcceptedIsPlaced(f, st.lineNumber, st.address, st.table);
        var rec := Record(f, st.lineNumber, st.address);
        ScanPlaced(lines[1..], Pass1(st.lineNumber + 1, NextAddress(f, st.address), st.records + [rec], st.errors, v.1), countRejected);
      }
    }
  }

  /** Pass 1 stops for errors exactly at the sixth, having reported the ones
      before it. */
  lemma {:induction false} ScanTooManyErrors(lines: seq<Option<Fields>>, st: Pass1, countRejected: bool)
    requires |st.errors| <= MaxSyntaxErrors
    ensures Scan(lines, st, countRejected).ScanTooMany? ==>
      |Scan(lines, st, countRejected).errors| == MaxSyntaxErrors + 1
      && st.errors <= Scan(lines, st, countRejected).errors
    ensures Scan(lines, st, countRejected).ScanDone? ==>
      |Scan(lines, st, countRejected).state.errors| <= MaxSyntaxErrors
      && st.errors <= Scan(lines, st, countRejected).state.errors
    decreases |lines|
  {
    if lines != [] && lines[0].Some? {
      var f := lines[0].value;
      var v := ValidateLine(f, st.lineNumber, st.address, st.table);
      if v.0.Some? {
        var errors := st.errors + [v.0.value];
        if |errors| <= MaxSyntaxErrors {
          var n := if countRejected then st.lineNumber + 1 else st.lineNumber;
          ScanTooManyErrors(lines[1..], st.(lineNumber := n, errors := errors, table := v.1), countRejected);
        }
      } else {
        AcceptedIsPlaced(f, st.lineNumber, st.address, st.table);
        var rec := Record(f, st.lineNumber, st.address);
        ScanTooManyErrors(lines[1..], Pass1(st.lineNumber + 1, NextAddress(f, st.address), st.records + [rec], st.errors, v.1), countRejected);
      }
    }
  }

  /** Each record holds its own line number. */
  predicate Numbered(records: seq<Record>) {
    forall k | 0 <= k < |records| :: records[k].lineNumber == k + 1
  }

  /** The first record has no address (nothing precedes the first `.ORG`),
      and each later record's address is where the one before it left off. */
  predicate Chained(records: seq<Record>)
    requires AllPlaced(records)
  {
    && (records != [] ==> records[0].address.None?)
    && forall k | 0 < k < |records| ::
         records[k].address == NextAddress(records[k - 1].fields, records[k - 1].address)
  }

  /** The address after the last record. */
  function After(records: seq<Record>): Option<nat>
    requires AllPlaced(records)
  {
    if records == [] then None
    else NextAddress(records[|records| - 1].fields, records[|records| - 1].address)
  }

  /** Without errors, every source line so far has been kept, each record
      holds its own line number, and the addresses are threaded from record
      to record and into the state. */
  predicate Threaded(st: Pass1) {
    && AllPlaced(st.records)
    && st.lineNumber == |st.records| + 1
    && Numbered(st.records)
    && Chained(st.records)
    && st.address == After(st.records)
  }

  /** Every record's label is in the table, bound to that line's binding
      (the `.EQU` value or the line's address). */
  predicate LabelsDefined(records: seq<Record>, table: Table)
    requires AllPlaced(records)
  {
    forall k | 0 <= k < |records| && records[k].fields.labelName.Some? ::
      && records[k].fields.labelName.value in table
      && table[records[k].fields.labelName.value] == LabelBinding(records[k].fields, records[k].address)
  }

  /** Every label in the table comes from a record. */
  predicate LabelsKnown(records: seq<Record>, table: Table) {
    forall l | l in table :: exists k | 0 <= k < |records| :: records[k].fields.labelName == Some(l)
  }

  /** No two records carry the same label. */
  predicate LabelsDistinct(records: seq<Record>) {
    forall j, k | 0 <= j < k < |records| && records[j].fields.labelName.Some? ::
      records[j].fields.labelName != records[k].fields.labelName
  }

  /** The table binds exactly the records' labels, which are distinct. */
  predicate LabelsBound(st: Pass1) {
    AllPlaced(st.records) && LabelsDefined(st.records, st.table) && LabelsKnown(st.records, st.table) && LabelsDistinct(st.records)
  }

  lemma NumberedStep(records: seq<Record>, f: Fields, address: Option<nat>)
    requires Numbered(records)
    ensures Numbered(records + [Record(f, |records| + 1, address)])
  {
    var rs := records + [Record(f, |records| + 1, address)];
    assert forall k | 0 <= k < |records| :: rs[k] == records[k];
  }

  lemma ChainedStep(records: seq<Record>, f: Fields, line: nat, address: Option<nat>)
    requires AllPlaced(records) && Chained(records) && Placed(f, address) && address == After(records)
    ensures AllPlaced(records + [Record(f, line, address)])
    ensures Chained(records + [Record(f, line, address)])
    ensures After(records + [Record(f, line, address)]) == NextAddress(f, address)
  {
    AllPlacedStep(records, f, line, address);
    var rs := records + [Record(f, line, address)];
    assert forall k | 0 <= k < |records| :: rs[k] == records[k];
  }

  /** One accepted line keeps the records threaded. */
  lemma ThreadedStep(st: Pass1, f: Fields)
    requires Threaded(st) && Placed(f, st.address)
    ensures Threaded(Pass1(st.lineNumber + 1, NextAddress(f, st.address), st.records + [Record(f, st.lineNumber, st.address)], st.errors, st.table))
  {
    NumberedStep(st.records, f, st.address);
    ChainedStep(st.records, f, st.lineNumber, st.address);
  }

  lemma AllPlacedStep(records: seq<Record>, f: Fields, line: nat, address: Option<nat>)
    requires AllPlaced(records) && Placed(f, address)
    ensures AllPlaced(records + [Record(f, line, address)])
  {
    var rs := records + [Record(f, line, address)];
    assert forall k | 0 <= k < |records| :: rs[k] == records[k];
  }

  lemma LabelsDefinedStep(records: seq<Record>, table: Table, f: Fields, line: nat, address: Option<nat>)
    requires AllPlaced(records) && LabelsDefined(records, table) && LineOk(f, address, table)
    requires AllPlaced(records + [Record(f, line, address)])
    ensures LabelsDefined(records + [Record(f, line, address)], Registered(f, address, table))
  {
    var rs := records + [Record(f, line, address)];
    var t := Registered(f, address, table);
    assert forall k | 0 <= k < |records| :: rs[k] == records[k];
    forall k | 0 <= k < |records| && records[k].fields.labelName.Some?
      ensures records[k].fields.labelName.value in t
      ensures t[records[k].fields.labelName.value] == LabelBinding(records[k].fields, records[k].address)
    {
      assert records[k].fields.labelName.value in table;
    }
  }

  lemma LabelsKnownStep(records: seq<Record>, table: Table, f: Fields, line: nat, address: Option<nat>)
    requires LabelsKnown(records, table) && Admitted(f)
    ensures LabelsKnown(records + [Record(f, line, address)], Registered(f, address, table))
  {
    var rs := records + [Record(f, line, address)];
    forall l | l in Registered(f, address, table) ensures exists k | 0 <= k < |rs| :: rs[k].fields.labelName == Some(l) {
      if l in table {
        var k :| 0 <= k < |records| && records[k].fields.labelName == Some(l);
        assert rs[k] == records[k];
      } else {
        assert rs[|rs| - 1].fields.labelName == Some(l);
      }
    }
  }

  lemma LabelsDistinctStep(records: seq<Record>, table: Table, f: Fields, line: nat, address: Option<nat>)
    requires AllPlaced(records) && LabelsDefined(records, table) && LabelsDistinct(records) && LineOk(f, address, table)
    ensures LabelsDistinct(records + [Record(f, line, address)])
  {
    var rs := records + [Record(f, line, address)];
    forall j, k | 0 <= j < k < |rs| && rs[j].fields.labelName.Some? ensures rs[j].fields.labelName != rs[k].fields.labelName {
      assert rs[j] == records[j];
      if k < |records| {
        assert rs[k] == records[k];
      } else {
        assert records[j].fields.labelName.value in table;
      }
    }
  }

  /** One accepted line keeps the labels bound. */
  lemma LabelsBoundStep(st: Pass1, f: Fields, t: Table)
    requires LabelsBound(st) && LineOk(f, st.address, st.table) && t == Registered(f, st.address, st.table)
    ensures LabelsBound(Pass1(st.lineNumber + 1, NextAddress(f, st.address), st.records + [Record(f, st.lineNumber, st.address)], st.errors, t))
  {
    AcceptedIsPlaced(f, st.lineNumber, st.address, st.table);
    AllPlacedStep(st.records, f, st.lineNumber, st.address);
    LabelsDefinedStep(st.records, st.table, f, st.lineNumber, st.address);
    LabelsKnownStep(st.records, st.table, f, st.lineNumber, st.address);
    LabelsDistinctStep(st.records, st.table, f, st.lineNumber, st.address);
  }

  /** An error-free pass 1 keeps every source line, threads the addresses
      and binds exactly the labels it met. */
  lemma {:induction false} ScanErrorFree(lines: seq<Option<Fields>>, st: Pass1, countRejected: bool)
    requires st.errors == [] ==> Threaded(st) && LabelsBound(st)
    ensures var r := Scan(lines, st, countRejected);
      r.ScanDone? && r.state.errors == [] ==>
        Threaded(r.state) && LabelsBound(r.state) && |r.state.records| == |st.records| + |lines|
    decreases |lines|
  {
    if lines != [] && lines[0].Some? {
      var f := lines[0].value;
      var v := ValidateLine(f, st.lineNumber, st.address, st.table);
      if v.0.Some? {
        var errors := st.errors + [v.0.value];
        if |errors| <= MaxSyntaxErrors {
          var n := if countRejected then st.lineNumber + 1 else st.lineNumber;
          var st' := st.(lineNumber := n, errors := errors, table := v.1);
          assert Scan(lines, st, countRejected) == Scan(lines[1..], st', countRejected);
          ScanTooManyErrors(lines[1..], st', countRejected);
        }
      } else {
        AcceptedIsPlaced(f, st.lineNumber, st.address, st.table);
        ValidateLineSpec(f, st.lineNumber, st.address, st.table);
        var st' := Pass1(st.lineNumber + 1, NextAddress(f, st.address), st.records + [Record(f, st.lineNumber, st.address)], st.errors, v.1);
        assert Scan(lines, st, countRejected) == Scan(lines[1..], st', countRejected);
        if st.errors == [] {
          ThreadedStep(st, f);
          LabelsBoundStep(st, f, v.1);
        }
        ScanErrorFree(lines[1..], st', countRejected);
      }
    }
  }

  /** The words of one record. */
  function RecordLocs(r: Record, w: Words): (locs: seq<Loc>)
    requires r.address.Some? || (w.word1.None? && w.word2.None?)
  {
    if r.address.None? then [] else MemLocs(r.address.value, w)
  }

  /** Pass 2 over the remaining records: `assemble` each line and, when it
      produced a word, add its `mem_locs`; an undefined label aborts. */
  function Emit(records: seq<Record>, table: Table, locs: seq<Loc>): Result<seq<Loc>, SyntaxError>
    requires AllPlaced(records)
    decreases |records|
  {
    if records == [] then Success(locs)
    else
      var r := records[0];
      match Encode(r.fields.opcode, r.fields.operands, table, r.lineNumber)
      case Failure(e) => Failure(e)
      case Success(w) =>
        var more := if w.word1.Some? || w.word2.Some? then RecordLocs(r, w) else [];
        Emit(records[1..], table, locs + more)
  }

  /** One step of pass 2: the first record's words, then the rest. */
  lemma EmitStep(records: seq<Record>, table: Table, locs: seq<Loc>, w: Words)
    requires AllPlaced(records) && records != []
    requires Encode(records[0].fields.opcode, records[0].fields.operands, table, records[0].lineNumber) == Success(w)
    ensures AllPlaced(records[1..]) && (records[0].address.Some? || (w.word1.None? && w.word2.None?))
    ensures Emit(records, table, locs)
              == Emit(records[1..], table, locs + if w.word1.Some? || w.word2.Some? then RecordLocs(records[0], w) else [])
  {
    assert forall k | 0 <= k < |records| - 1 :: records[1..][k] == records[k + 1];
    assert Placed(records[0].fields, records[0].address);
  }

  /** The outcome of a run. `TooManyErrors` and `ErrorsAfterScan` are the
      `sys.exit` calls (the exit status is the number of errors); the aborts
      are the uncaught exceptions. */
  datatype RunResult =
    | ParseAborted(line: nat)
    | TooManyErrors(errors: seq<SyntaxError>)
    | ErrorsAfterScan(errors: seq<SyntaxError>)
    | EncodeAborted(error: SyntaxError)
    | Assembled(table: Table, locs: seq<Loc>, image: seq<nat>)

  /** The assembler on the lines of a source file. */
  function RunSpec(source: seq<string>): RunResult {
    ScanPlaced(Parsed(source), Start, true);
    match Scan(Parsed(source), Start, true)
    case ScanParseError(n) => ParseAborted(n)
    case ScanTooMany(es) => TooManyErrors(es)
    case ScanDone(st) =>
      if st.errors != [] then ErrorsAfterScan(st.errors)
      else
        match Emit(st.records, st.table, [])
        case Failure(e) => EncodeAborted(e)
        case Success(locs) => Assembled(st.table, locs, Image(locs))
  }

  /** After an error-free pass 1 every label in the table is bound to a
      value: an `.EQU` label to its operand, any other label to an address,
      since a labelled line is only accepted after an origin (and `.ORG`
      takes no label). */
  lemma LabelsBoundAllBound(records: seq<Record>, table: Table)
    requires AllPlaced(records) && LabelsDefined(records, table) && LabelsKnown(records, table)
    ensures AllBound(table)
  {
    forall l | l in table ensures table[l].Some? {
      var k :| 0 <= k < |records| && records[k].fields.labelName == Some(l);
      var f := records[k].fields;
      assert Placed(f, records[k].address);
      if f.opcode == Some(".ORG") {
        CheckPseudoSpec(".ORG", f.labelName, f.operands);
        assert false;
      }
    }
  }

  /** A long instruction naming a label resolves to that label's binding,
      whether the label is defined before or after it: pass 2 runs against
      the table of the whole file. */
  lemma ForwardReference(records: seq<Record>, table: Table, j: nat, k: nat)
    requires AllPlaced(records) && LabelsDefined(records, table)
    requires j < |records| && k < |records|
    requires records[j].fields.opcode.Some? && !IsPseudo(records[j].fields.opcode.value)
    requires Info(records[j].fields.opcode.value).format == Long
    requires var f := records[j].fields;
      var i := Info(f.opcode.value).secondWord.value.index;
      1 <= i <= |f.operands| && !IsHexLiteral(f.operands[i - 1]) && records[k].fields.labelName == Some(f.operands[i - 1])
    ensures var f := records[j].fields;
      Encode(f.opcode, f.operands, table, records[j].lineNumber)
        == Success(Words(Some(Word1(Info(f.opcode.value), f.operands)), LabelBinding(records[k].fields, records[k].address)))
  {
    var f := records[j].fields;
    assert Placed(f, records[j].address) && Placed(records[k].fields, records[k].address);
    EncodeInstruction(f.opcode.value, f.operands, table, records[j].lineNumber);
  }

  /** Pass 2 aborts only for a label that is not in the table. */
  lemma {:induction false} EmitErrors(records: seq<Record>, table: Table, locs: seq<Loc>)
    requires AllPlaced(records)
    ensures Emit(records, table, locs).Failure? ==>
      && Emit(records, table, locs).error.kind == UndefinedLabel
      && exists k | 0 <= k < |records| :: Emit(records, table, locs).error.line == records[k].lineNumber
    decreases |records|
  {
    if records != [] {
      var r := records[0];
      assert Placed(r.fields, r.address);
      var e := Encode(r.fields.opcode, r.fields.operands, table, r.lineNumber);
      if e.Failure? {
        EncodeErrors(r.fields.opcode, r.fields.operands, table, r.lineNumber);
      } else {
        assert AllPlaced(records[1..]) by {
          assert forall k | 0 <= k < |records| - 1 :: records[1..][k] == records[k + 1];
        }
        var more := if e.value.word1.Some? || e.value.word2.Some? then RecordLocs(r, e.value) else [];
        EmitErrors(records[1..], table, locs + more);
        if Emit(records, table, locs).Failure? {
          var k :| 0 <= k < |records[1..]| && Emit(records, table, locs).error.line == records[1..][k].lineNumber;
          assert records[1..][k] == records[k + 1];
        }
      }
    }
  }

  /** What a run can end with: the sixth syntax error, between one and five
      syntax errors after the whole file, an undefined label in pass 2, or
      the memory image of a file whose every line was kept and whose every
      label is bound. */
  lemma RunOutcomes(source: seq<string>)
    ensures RunSpec(source).TooManyErrors? ==> |RunSpec(source).errors| == MaxSyntaxErrors + 1
    ensures RunSpec(source).ErrorsAfterScan? ==> 1 <= |RunSpec(source).errors| <= MaxSyntaxErrors
    ensures RunSpec(source).TooManyErrors? ==> ErrorLinesOrdered(RunSpec(source).errors, |source| + 1)
    ensures RunSpec(source).ErrorsAfterScan? ==> ErrorLinesOrdered(RunSpec(source).errors, |source| + 1)
    ensures RunSpec(source).EncodeAborted? ==> RunSpec(source).error.kind == UndefinedLabel
    ensures RunSpec(source).Assembled? ==>
      && AllBound(RunSpec(source).table)
      && forall i | 0 <= i < |source| :: Decompose(source[i]).Some?
  {
    var lines := Parsed(source);
    ScanPlaced(lines, Start, true);
    ScanTooManyErrors(lines, Start, true);
    ScanErrorFree(lines, Start, true);
    ScanKeepsLines(lines, Start, true);
    ScanErrorLines(lines, Start);
    var sc := Scan(lines, Start, true);
    if sc.ScanDone? && sc.state.errors == [] {
      EmitErrors(sc.state.records, sc.state.table, []);
      LabelsBoundAllBound(sc.state.records, sc.state.table);
    }
  }

  /** Pass 1 ends normally only when every line decomposes. */
  lemma {:induction false} ScanKeepsLines(lines: seq<Option<Fields>>, st: Pass1, countRejected: bool)
    ensures Scan(lines, st, countRejected).ScanDone? ==> forall i | 0 <= i < |lines| :: lines[i].Some?
    decreases |lines|
  {
    if lines != [] && lines[0].Some? {
      var f := lines[0].value;
      var v := ValidateLine(f, st.lineNumber, st.address, st.table);
      if v.0.Some? {
        var errors := st.errors + [v.0.value];
        if |errors| <= MaxSyntaxErrors {
          var n := if countRejected then st.lineNumber + 1 else st.lineNumber;
          ScanKeepsLines(lines[1..], st.(lineNumber := n, errors := errors, table := v.1), countRejected);
        }
      } else {
        AcceptedIsPlaced(f, st.lineNumber, st.address, st.table);
        var rec := Record(f, st.lineNumber, st.address);
        ScanKeepsLines(lines[1..], Pass1(st.lineNumber + 1, NextAddress(f, st.address), st.records + [rec], st.errors, v.1), countRejected);
      }
      if Scan(lines, st, countRejected).ScanDone? {
        forall i | 0 <= i < |lines| ensures lines[i].Some? {
          if i > 0 { assert lines[i] == lines[1..][i - 1]; }
        }
      }
    }
  }

  /** Errors name strictly increasing lines, all before line `next`. */
  predicate ErrorLinesOrdered(errors: seq<SyntaxError>, next: nat) {
    && (forall i, j | 0 <= i < j < |errors| :: errors[i].line < errors[j].line)
    && (forall k | 0 <= k < |errors| :: errors[k].line < next)
  }

  lemma ErrorLinesStep(errors: seq<SyntaxError>, next: nat, e: SyntaxError)
    requires ErrorLinesOrdered(errors, next) && e.line == next
    ensures ErrorLinesOrdered(errors + [e], next + 1)
  {
    var es := errors + [e];
    assert forall k | 0 <= k < |errors| :: es[k] == errors[k];
  }

  /** How a scan that counts every line should end, `next` being the
      line after the last: errors in line order, all before `next`, and a
      finished scan standing at `next`. */
  predicate LinesCounted(r: Scanned, next: nat) {
    match r
    case ScanDone(st) => ErrorLinesOrdered(st.errors, st.lineNumber) && st.lineNumber == next
    case ScanTooMany(errors) => ErrorLinesOrdered(errors, next)
    case ScanParseError(_) => true
  }

  /** Counting every line, each error names its own line: the errors come
      in strictly increasing line order, and a finished scan has advanced
      the counter once per line. */
  lemma {:induction false} ScanErrorLines(lines: seq<Option<Fields>>, st: Pass1)
    requires ErrorLinesOrdered(st.errors, st.lineNumber)
    ensures LinesCounted(Scan(lines, st, true), st.lineNumber + |lines|)
    decreases |lines|
  {
    if lines != [] && lines[0].Some? {
      var f := lines[0].value;
      var v := ValidateLine(f, st.lineNumber, st.address, st.table);
      ValidateLineSpec(f, st.lineNumber, st.address, st.table);
      if v.0.Some? {
        var errors := st.errors + [v.0.value];
        ErrorLinesStep(st.errors, st.lineNumber, v.0.value);
        if |errors| <= MaxSyntaxErrors {
          ScanErrorLines(lines[1..], st.(lineNumber := st.lineNumber + 1, errors := errors, table := v.1));
        } else {
          assert ErrorLinesOrdered(errors, st.lineNumber + |lines|);
        }
      } else {
        AcceptedIsPlaced(f, st.lineNumber, st.address, st.table);
        var rec := Record(f, st.lineNumber, st.address);
        ScanErrorLines(lines[1..], Pass1(st.lineNumber + 1, NextAddress(f, st.address), st.records + [rec], st.errors, v.1));
      }
    }
  }

  /** The line numbers as written: a rejected line does not advance the
      line counter, so the error on the next line is reported one line too
      early. Two lines with an unknown mnemonic are both reported as line 1;
      counting every line reports lines 1 and 2. */
  lemma RejectedLinesMisnumbered()
    ensures var f := Fields(None, Some("FOO"), []);
      && Scan([Some(f), Some(f)], Start, false)
           == ScanDone(Pass1(1, None, [], [SyntaxError(1, InvalidOpcode), SyntaxError(1, InvalidOpcode)], map[]))
      && Scan([Some(f), Some(f)], Start, true)
           == ScanDone(Pass1(3, None, [], [SyntaxError(1, InvalidOpcode), SyntaxError(2, InvalidOpcode)], map[]))
      && !LinesCounted(Scan([Some(f), Some(f)], Start, false), 3)
  {
    var f := Fields(None, Some("FOO"), []);
    var e1, e2 := SyntaxError(1, InvalidOpcode), SyntaxError(2, InvalidOpcode);
    assert !ValidOpcode("FOO");
    assert CheckOperation("FOO", None, []) == Some(InvalidOpcode);
    assert ValidateLine(f, 1, None, map[]) == (Some(e1), map[]);
    assert ValidateLine(f, 2, None, map[]) == (Some(e2), map[]);
    var lines := [Some(f), Some(f)];
    assert lines[0] == Some(f) && lines[1..] == [Some(f)];
    assert Start.errors + [e1] == [e1];
    var asWritten := Pass1(1, None, [], [e1], map[]);
    assert Scan(lines, Start, false) == Scan([Some(f)], asWritten, false);
    assert Scan([Some(f)], asWritten, false) == Scan([], asWritten.(errors := [e1, e1]), false);
    var counted := Pass1(2, None, [], [e1], map[]);
    assert Scan(lines, Start, true) == Scan([Some(f)], counted, true);
    assert Scan([Some(f)], counted, true) == Scan([], Pass1(3, None, [], [e1, e2], map[]), true);
  }

  /** The lines built in pass 1 agree with the records of the model. */
  ghost predicate Mirrors(code: seq<AsmLine>, records: seq<Record>) {
    && |code| == |records|
    && forall k | 0 <= k < |code| ::
      && code[k].fields == records[k].fields
      && code[k].lineNumber == records[k].lineNumber
      && code[k].memAddress == records[k].address
  }

  /** Pass 1 of `main`: build an `AsmLine` per source line, counting the
      rejected ones and stopping at a parse failure or the sixth error. */
  method FirstPass(source: seq<string>, symbols: SymbolTable)
    returns (outcome: Scanned, code: seq<AsmLine>)
    requires symbols.table == map[]
    modifies symbols
    ensures outcome == Scan(Parsed(source), Start, true)
    ensures outcome.ScanDone? ==>
      && Mirrors(code, outcome.state.records)
      && symbols.table == outcome.state.table
      && forall k | 0 <= k < |code| :: fresh(code[k]) && code[k].word1.None? && code[k].word2.None?
  {
    ghost var parsed := Parsed(source);
    var lineNumber: nat := 1;
    var memAddress: Option<nat> := None;
    code := [];
    var records: seq<Record> := [];
    var errors: seq<SyntaxError> := [];
    var i := 0;
    while i < |source|
      invariant 0 <= i <= |source|
      invariant Mirrors(code, records)
      invariant forall k | 0 <= k < |code| :: fresh(code[k]) && code[k].word1.None? && code[k].word2.None?
      invariant |errors| <= MaxSyntaxErrors
      invariant Scan(parsed, Start, true) == Scan(parsed[i..], Pass1(lineNumber, memAddress, records, errors, symbols.table), true)
    {
      assert parsed[i..][0] == Decompose(source[i]) && parsed[i..][1..] == parsed[i + 1..];
      var line := NewAsmLine(source[i], lineNumber, memAddress, symbols);
      match line {
        case ParseFailed =>
          return ScanParseError(lineNumber), code;
        case Rejected(e) =>
          errors := errors + [e];
          if |errors| > MaxSyntaxErrors {
            return ScanTooMany(errors), code;
          }
          lineNumber := lineNumber + 1;
        case Accepted(a) =>
          code := code + [a];
          records := records + [Record(a.fields, lineNumber, memAddress)];
          lineNumber := lineNumber + 1;
          memAddress := a.NextMemAddress();
      }
      i := i + 1;
    }
    assert parsed[i..] == [];
    outcome := ScanDone(Pass1(lineNumber, memAddress, records, errors, symbols.table));
  }

  /** Pass 2 of `main`: `assemble` every line and collect its `mem_locs`
      when it produced a word; an undefined label aborts. */
  method SecondPass(code: seq<AsmLine>, ghost records: seq<Record>, symbols: SymbolTable)
    returns (r: Result<seq<Loc>, SyntaxError>)
    requires AllPlaced(records) && Mirrors(code, records)
    modifies code
    ensures r == Emit(records, symbols.table, [])
  {
    var locs: seq<Loc> := [];
    var j := 0;
    while j < |code|
      invariant 0 <= j <= |code|
      invariant Emit(records, symbols.table, []) == Emit(records[j..], symbols.table, locs)
    {
      assert records[j..][0] == records[j] && records[j..][1..] == records[j + 1..];
      var c := code[j];
      assert c.Valid();
      var err := c.Assemble(symbols);
      ghost var e := Encode(c.fields.opcode, c.fields.operands, symbols.table, c.lineNumber);
      if err.Some? {
        return Failure(err.value);
      }
      assert e.Success? && Words(c.word1, c.word2) == e.value;
      ghost var more := if c.word1.Some? || c.word2.Some? then RecordLocs(records[j], e.value) else [];
      assert Emit(records[j..], symbols.table, locs) == Emit(records[j + 1..], symbols.table, locs + more);
      if c.word1.Some? || c.word2.Some? {
        assert c.Locs() == more;
        locs := locs + c.Locs();
      } else {
        assert locs + more == locs;
      }
      j := j + 1;
    }
    assert records[j..] == [];
    r := Success(locs);
  }

  /** `main`, on the lines of the source file. */
  method Run(source: seq<string>) returns (r: RunResult)
    ensures r == RunSpec(source)
  {
    ScanPlaced(Parsed(source), Start, true);
    var symbols := new SymbolTable();
    var outcome, code := FirstPass(source, symbols);
    match outcome {
      case ScanParseError(n) =>
        return ParseAborted(n);
      case ScanTooMany(es) =>
        return TooManyErrors(es);
      case ScanDone(st) =>
        if |st.errors| > 0 {
          return ErrorsAfterScan(st.errors);
        }
        var emitted := SecondPass(code, st.records, symbols);
        match emitted {
          case Failure(e) =>
            return EncodeAborted(e);
          case Success(locs) =>
            var image := CreateMemFile(locs);
            return Assembled(symbols.table, locs, image);
        }
    }
  }
}
