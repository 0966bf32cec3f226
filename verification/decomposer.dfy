/** The line decomposer (`AsmLine.__parseInitial`): strip the comment, then
    try ten fixed field layouts in a fixed order and upper-case what the first
    matching layout captures. Each layout is one of the source's regular
    expressions, written out over the character classes of module Chars. */
module Decomposer {
  import opened Wrappers
  import opened Chars

  /** The fields of one line. `operands` holds the operands in order; the
      decomposer never yields operands without an opcode. */
  datatype Fields = Fields(labelName: Option<string>, opcode: Option<string>, operands: seq<string>)

  const Blank := Fields(None, None, [])

  /** Everything before the first `;`. */
  function StripComment(text: string): (p: string)
    ensures p <= text
    ensures ';' !in p
    ensures |p| < |text| ==> text[|p|] == ';'
  {
    if text == [] || text[0] == ';' then [] else [text[0]] + StripComment(text[1..])
  }

  /** `^\s*$` */
  predicate AllSpace(s: string) {
    forall i | 0 <= i < |s| :: IsSpace(s[i])
  }

  /** What one `(\S+)` group can capture. */
  predicate IsToken(s: string) {
    |s| > 0 && forall i | 0 <= i < |s| :: !IsSpace(s[i])
  }

  /** The length of the run of non-whitespace characters at the front of `s`. */
  function WordLen(s: string): (n: nat)
    ensures n <= |s|
    ensures forall i | 0 <= i < n :: !IsSpace(s[i])
    ensures n < |s| ==> IsSpace(s[n])
  {
    if s == [] || IsSpace(s[0]) then 0 else 1 + WordLen(s[1..])
  }

  /** `s` without its leading whitespace: what follows a greedy `\s*` or `\s+`. */
  function SkipSpace(s: string): (r: string)
    ensures r == [] || !IsSpace(r[0])
  {
    if s != [] && IsSpace(s[0]) then SkipSpace(s[1..]) else s
  }

  /** What `SkipSpace` removes is a whitespace prefix, and it keeps the rest. */
  lemma {:induction false} SkipSpaceSuffix(s: string)
    ensures |SkipSpace(s)| <= |s| && SkipSpace(s) == s[|s| - |SkipSpace(s)|..]
    ensures AllSpace(s[..|s| - |SkipSpace(s)|])
  {
    if s != [] && IsSpace(s[0]) {
      SkipSpaceSuffix(s[1..]);
      assert s[1..][|s| - 1 - |SkipSpace(s)|..] == s[|s| - |SkipSpace(s)|..];
    }
  }

  /** `(\S+)\s+`: the word at the front and the text after the whitespace that
      follows it. A shorter capture would leave a non-whitespace character where
      `\s+` needs whitespace, so the whole word is captured. */
  function Lead(s: string): (r: Option<(string, string)>)
    ensures r.Some? ==> IsToken(r.value.0) && r.value.0 <= s
  {
    var n := WordLen(s);
    if 0 < n < |s| then Some((s[..n], SkipSpace(s[n..]))) else None
  }

  /** `(\S+)\s*$`: a single word followed only by whitespace. */
  function Final(s: string): (r: Option<string>)
    ensures r.Some? ==> IsToken(r.value) && r.value <= s && AllSpace(s[|r.value|..])
  {
    var n := WordLen(s);
    if 0 < n && AllSpace(s[n..]) then Some(s[..n]) else None
  }

  /** `^\s+`: the line starts in the whitespace column; the text after it. */
  function Indent(p: string): Option<string> {
    if p != [] && IsSpace(p[0]) then Some(SkipSpace(p)) else None
  }

  /** `\s*,\s*` at position `i` of `s`: the text after the separator, if there is one. */
  function AfterComma(s: string, i: nat): (r: Option<string>)
    requires i <= |s|
  {
    var t := SkipSpace(s[i..]);
    if |t| > 0 && t[0] == ',' then Some(SkipSpace(t[1..])) else None
  }

  /** The declarative reading of the operand groups
      `(\S+)\s*,\s*(\S+) ... (\S+)\s*$`: `s` is `ops[0]`, optional whitespace,
      a comma, optional whitespace, `ops[1]`, and so on, then trailing whitespace. */
  predicate SplitsAs(s: string, ops: seq<string>)
    decreases |ops|
  {
    && |ops| >= 1 && IsToken(ops[0]) && |ops[0]| <= |s| && s[..|ops[0]|] == ops[0]
    && if |ops| == 1 then AllSpace(s[|ops[0]|..])
       else AfterComma(s, |ops[0]|).Some? && SplitsAs(AfterComma(s, |ops[0]|).value, ops[1..])
  }

  /** The operand groups as the regular-expression engine matches them: an
      operand may itself contain commas, and the engine backtracks from the
      longest first operand to shorter ones, so the first operand is the longest
      one for which the remaining groups still match. */
  function Operands(s: string, n: nat): (r: Option<seq<string>>)
    requires n >= 1
    decreases n, 1
  {
    if n == 1 then
      match Final(s)
      case Some(x) => Some([x])
      case None => None
    else OperandsFrom(s, n, WordLen(s))
  }

  /** Try first-operand lengths `i`, `i - 1`, ..., 1 in turn. */
  function OperandsFrom(s: string, n: nat, i: nat): (r: Option<seq<string>>)
    requires n >= 2 && i <= WordLen(s)
    decreases n, 0, i
  {
    if i == 0 then None
    else if AfterComma(s, i).Some? && Operands(AfterComma(s, i).value, n - 1).Some? then
      Some([s[..i]] + Operands(AfterComma(s, i).value, n - 1).value)
    else OperandsFrom(s, n, i - 1)
  }

  /** `^(\S+)\s*$` */
  function LabelShape(p: string): Option<Fields> {
    var l :- Final(p);
    Some(Fields(Some(l), None, []))
  }

  /** `^(\S+)\s+(\S+)\s*$` */
  function LabOpShape(p: string): Option<Fields> {
    var lr :- Lead(p);
    var o :- Final(lr.1);
    Some(Fields(Some(lr.0), Some(o), []))
  }

  /** `^(\S+)\s+(\S+)\s+` followed by `n` operand groups. */
  function LabOpNShape(p: string, n: nat): Option<Fields>
    requires n >= 1
  {
    var lr :- Lead(p);
    var or :- Lead(lr.1);
    var ops :- Operands(or.1, n);
    Some(Fields(Some(lr.0), Some(or.0), ops))
  }

  /** `^\s+(\S+)\s*$` */
  function OpcodeShape(p: string): Option<Fields> {
    var r :- Indent(p);
    var o :- Final(r);
    Some(Fields(None, Some(o), []))
  }

  /** `^\s+(\S+)\s+` followed by `n` operand groups. */
  function OpNShape(p: string, n: nat): Option<Fields>
    requires n >= 1
  {
    var r :- Indent(p);
    var or :- Lead(r);
    var ops :- Operands(or.1, n);
    Some(Fields(None, Some(or.0), ops))
  }

  /** The layouts after the blank one, in the order the source tries them. */
  function Shapes(p: string): seq<Option<Fields>> {
    [ LabelShape(p), LabOpShape(p), LabOpNShape(p, 3), OpNShape(p, 3), LabOpNShape(p, 2),
      OpNShape(p, 2), OpcodeShape(p), LabOpNShape(p, 1), OpNShape(p, 1) ]
  }

  /** The first layout that matches. */
  function FirstMatch(cands: seq<Option<Fields>>): (r: Option<Fields>)
    ensures r.Some? ==> exists k | 0 <= k < |cands| :: cands[k] == r && forall j | 0 <= j < k :: cands[j].None?
    ensures r.None? ==> forall k | 0 <= k < |cands| :: cands[k].None?
  {
    if cands == [] then None
    else if cands[0].Some? then cands[0]
    else
      var r := FirstMatch(cands[1..]);
      assert r.Some? ==> exists k | 0 <= k < |cands| :: cands[k] == r && forall j | 0 <= j < k :: cands[j].None? by {
        if r.Some? {
          var k :| 0 <= k < |cands[1..]| && cands[1..][k] == r && forall j | 0 <= j < k :: cands[1..][j].None?;
          assert cands[k + 1] == r;
          assert forall j | 0 <= j < k + 1 :: cands[j].None? by {
            forall j | 0 <= j < k + 1 ensures cands[j].None? {
              if j > 0 { assert cands[j] == cands[1..][j - 1]; }
            }
          }
        }
      }
      assert r.None? ==> forall k | 0 <= k < |cands| :: cands[k].None? by {
        if r.None? {
          forall k | 0 <= k < |cands| ensures cands[k].None? {
            if k > 0 { assert cands[k] == cands[1..][k - 1]; }
          }
        }
      }
      r
  }

  function UpperLabel(l: Option<string>): (u: Option<string>)
    ensures u.Some? <==> l.Some?
    ensures u.Some? ==> u.value == Upper(l.value)
  {
    match l
    case Some(s) => Some(Upper(s))
    case None => None
  }

  /** Every captured field upper-cased. */
  function UpperFields(f: Fields): (u: Fields)
    ensures u.labelName.Some? <==> f.labelName.Some?
    ensures u.labelName.Some? ==> u.labelName.value == Upper(f.labelName.value)
    ensures u.opcode.Some? <==> f.opcode.Some?
    ensures u.opcode.Some? ==> u.opcode.value == Upper(f.opcode.value)
    ensures |u.operands| == |f.operands|
    ensures forall i | 0 <= i < |f.operands| :: u.operands[i] == Upper(f.operands[i])
  {
    Fields(UpperLabel(f.labelName), UpperLabel(f.opcode),
           seq(|f.operands|, i requires 0 <= i < |f.operands| => Upper(f.operands[i])))
  }

  /** The fields the first matching layout captures, before upper-casing. */
  function Cascade(p: string): Option<Fields> {
    FirstMatch(Shapes(p))
  }

  /** `__parseInitial`: `None` is the source's `ParseError`. */
  function Decompose(text: string): (r: Option<Fields>)
  {
    var p := StripComment(text);
    if AllSpace(p) then Some(Blank)
    else
      match Cascade(p)
      case Some(f) => Some(UpperFields(f))
      case None => None
  }

  /** Soundness: what the matcher returns is a split of the operand text into
      exactly `n` operands. */
  lemma {:induction false} OperandsSound(s: string, n: nat)
    requires n >= 1 && Operands(s, n).Some?
    ensures |Operands(s, n).value| == n && SplitsAs(s, Operands(s, n).value)
    decreases n, 1
  {
    if n >= 2 {
      OperandsFromSound(s, n, WordLen(s));
    }
  }

  lemma {:induction false} OperandsFromSound(s: string, n: nat, i: nat)
    requires n >= 2 && i <= WordLen(s) && OperandsFrom(s, n, i).Some?
    ensures |OperandsFrom(s, n, i).value| == n && SplitsAs(s, OperandsFrom(s, n, i).value)
    ensures |OperandsFrom(s, n, i).value[0]| <= i
    decreases n, 0, i
  {
    if AfterComma(s, i).Some? && Operands(AfterComma(s, i).value, n - 1).Some? {
      var a := AfterComma(s, i).value;
      OperandsSound(a, n - 1);
      SplitsAsCons(s, i, a, Operands(a, n - 1).value);
    } else {
      assert OperandsFrom(s, n, i) == OperandsFrom(s, n, i - 1);
      OperandsFromSound(s, n, i - 1);
    }
  }

  /** Prefixing a word and a separator to a split gives a split. */
  lemma SplitsAsCons(s: string, i: nat, a: string, rest: seq<string>)
    requires 0 < i <= WordLen(s) && AfterComma(s, i) == Some(a) && SplitsAs(a, rest)
    ensures SplitsAs(s, [s[..i]] + rest)
  {
    var ops := [s[..i]] + rest;
    WordPrefixIsToken(s, i);
    assert ops[0] == s[..i] && ops[1..] == rest;
    assert AfterComma(s, |ops[0]|).Some? && SplitsAs(AfterComma(s, |ops[0]|).value, ops[1..]);
  }

  /** A non-empty prefix of the first word is a token. */
  lemma WordPrefixIsToken(s: string, i: nat)
    requires 0 < i <= WordLen(s)
    ensures IsToken(s[..i]) && s[..i] == s[..i][..i]
  {
  }

  /** The first operand of a split never reaches past the first whitespace,
      and a lone operand is exactly the first word. */
  lemma SplitsAsFirstWord(s: string, ops: seq<string>)
    requires SplitsAs(s, ops)
    ensures |ops[0]| <= WordLen(s)
    ensures |ops| == 1 ==> ops[0] == s[..WordLen(s)]
  {
    var k := |ops[0]|;
    var w := WordLen(s);
    assert ops[0] == s[..k];
    if k > w {
      assert false;
    }
    if |ops| == 1 && k < w {
      assert false;
    }
  }

  /** Completeness and greed: whenever the operand text splits into `n`
      operands at all, the matcher succeeds, and its first operand is at least
      as long as the first operand of any split. */
  lemma {:induction false} OperandsComplete(s: string, ops: seq<string>)
    requires SplitsAs(s, ops)
    ensures Operands(s, |ops|).Some? && |Operands(s, |ops|).value| == |ops|
    ensures |Operands(s, |ops|).value[0]| >= |ops[0]|
    decreases |ops|, 1
  {
    SplitsAsFirstWord(s, ops);
    if |ops| >= 2 {
      OperandsFromComplete(s, ops, WordLen(s));
    }
  }

  lemma {:induction false} OperandsFromComplete(s: string, ops: seq<string>, i: nat)
    requires |ops| >= 2 && SplitsAs(s, ops) && |ops[0]| <= i <= WordLen(s)
    ensures OperandsFrom(s, |ops|, i).Some? && |OperandsFrom(s, |ops|, i).value| == |ops|
    ensures |OperandsFrom(s, |ops|, i).value[0]| >= |ops[0]|
    decreases |ops|, 0, i
  {
    var n := |ops|;
    if AfterComma(s, i).Some? && Operands(AfterComma(s, i).value, n - 1).Some? {
      OperandsFromSound(s, n, i);
    } else if i == |ops[0]| {
      var a := AfterComma(s, i).value;
      var tail := ops[1..];
      assert SplitsAs(a, tail);
      OperandsComplete(a, tail);
      assert false;
    } else {
      assert OperandsFrom(s, |ops|, i) == OperandsFrom(s, |ops|, i - 1);
      OperandsFromComplete(s, ops, i - 1);
    }
  }

  /** A field as the decomposer leaves it: a non-empty run of non-whitespace
      characters without lower-case letters. */
  predicate IsField(x: string) {
    IsToken(x) && IsUpperCase(x)
  }

  /** The shape of every decomposition: each present field is an upper-case
      token, there are at most three operands, and operands come only with an
      opcode. */
  predicate WellShaped(f: Fields) {
    && (f.labelName.Some? ==> IsField(f.labelName.value))
    && (f.opcode.Some? ==> IsField(f.opcode.value))
    && |f.operands| <= 3
    && (f.operands != [] ==> f.opcode.Some?)
    && forall k | 0 <= k < |f.operands| :: IsField(f.operands[k])
  }

  /** Every operand of a split is a token. */
  lemma {:induction false} SplitsAsTokens(s: string, ops: seq<string>)
    requires SplitsAs(s, ops)
    ensures forall k | 0 <= k < |ops| :: IsToken(ops[k])
    decreases |ops|
  {
    if |ops| >= 2 {
      SplitsAsTokens(AfterComma(s, |ops[0]|).value, ops[1..]);
      assert forall k | 1 <= k < |ops| :: ops[k] == ops[1..][k - 1];
    }
  }

  /** Operand text that the matcher accepts starts with a non-whitespace character. */
  lemma OperandsStartWithToken(s: string, n: nat)
    requires n >= 1 && Operands(s, n).Some?
    ensures |Operands(s, n).value| == n && forall k | 0 <= k < n :: IsToken(Operands(s, n).value[k])
    ensures s != [] && !IsSpace(s[0])
  {
    OperandsSound(s, n);
    SplitsAsTokens(s, Operands(s, n).value);
    var x := Operands(s, n).value[0];
    assert s[..|x|] == x && s[0] == x[0];
  }

  /** Upper-casing a token gives a field. */
  lemma UpperToken(x: string)
    requires IsToken(x)
    ensures IsField(Upper(x))
  {
  }

  /** Each layout yields fields of the right shape, and a label exactly when
      the line does not start with whitespace. */
  lemma {:induction false} ShapesShaped(p: string, k: nat)
    requires p != [] && k < 9 && Shapes(p)[k].Some?
    ensures var f := Shapes(p)[k].value;
      && (f.labelName.Some? ==> IsToken(f.labelName.value))
      && (f.opcode.Some? ==> IsToken(f.opcode.value))
      && (f.labelName.Some? || f.opcode.Some?)
      && |f.operands| <= 3
      && (f.operands != [] ==> f.opcode.Some?)
      && (forall j | 0 <= j < |f.operands| :: IsToken(f.operands[j]))
      && (f.labelName.Some? <==> !IsSpace(p[0]))
  {
    if k == 0 {
      var l := Final(p).value;
      assert p[0] == l[0] by { assert p[..|l|] == l; }
    } else if k == 1 || k == 2 || k == 4 || k == 7 {
      var l := Lead(p).value.0;
      assert p[0] == l[0] by { assert p[..|l|] == l; }
      if k != 1 {
        var n := if k == 2 then 3 else if k == 4 then 2 else 1;
        assert Shapes(p)[k] == LabOpNShape(p, n);
        OperandsStartWithToken(Lead(Lead(p).value.1).value.1, n);
      }
    } else if k == 3 || k == 5 || k == 8 {
      var n := if k == 3 then 3 else if k == 5 then 2 else 1;
      assert Shapes(p)[k] == OpNShape(p, n);
      OperandsStartWithToken(Lead(Indent(p).value).value.1, n);
    }
  }

  /** Every decomposition is well shaped. */
  lemma DecomposeWellShaped(text: string)
    requires Decompose(text).Some?
    ensures WellShaped(Decompose(text).value)
  {
    var p := StripComment(text);
    if !AllSpace(p) {
      var k :| 0 <= k < 9 && Shapes(p)[k] == Cascade(p);
      ShapesShaped(p, k);
      var f := Shapes(p)[k].value;
      if f.labelName.Some? { UpperToken(f.labelName.value); }
      if f.opcode.Some? { UpperToken(f.opcode.value); }
      forall j | 0 <= j < |f.operands| ensures IsField(Decompose(text).value.operands[j]) {
        UpperToken(f.operands[j]);
      }
    }
  }

  /** The label column: a line has a label exactly when its first character
      (after the comment is removed) is not whitespace; and a line yields no
      fields exactly when it is blank. */
  lemma DecomposeLabelColumn(text: string)
    requires Decompose(text).Some?
    ensures var p := StripComment(text);
      Decompose(text).value.labelName.Some? <==> p != [] && !IsSpace(p[0])
    ensures Decompose(text).value == Blank <==> AllSpace(StripComment(text))
  {
    var p := StripComment(text);
    if !AllSpace(p) {
      var k :| 0 <= k < 9 && Shapes(p)[k] == Cascade(p);
      ShapesShaped(p, k);
    }
  }

  /** Skipping the whitespace of an all-whitespace text leaves nothing. */
  lemma SkipAllSpace(s: string)
    requires AllSpace(s)
    ensures SkipSpace(s) == []
  {
    SkipSpaceSuffix(s);
  }

  /** A text that the labelled three-operand layout fits has at least three
      words, so neither the label-only nor the label-and-opcode layout fits it. */
  lemma LabelledThreeOperandsExclusive(p: string)
    requires LabOpNShape(p, 3).Some?
    ensures LabelShape(p).None? && LabOpShape(p).None?
  {
    var n := WordLen(p);
    var r1 := Lead(p).value.1;
    var w := WordLen(r1);
    var r2 := Lead(r1).value.1;
    OperandsStartWithToken(r2, 3);
    if Final(p).Some? {
      SkipAllSpace(p[n..]);
    }
    if Final(r1).Some? {
      SkipAllSpace(r1[w..]);
    }
  }

  /** Why the three-operand layouts are tried before the others: a line that
      fits a three-operand layout fits none of the layouts tried before it, so
      its three operands are what the decomposer returns. This one is for a
      line with a label. */
  lemma LabelledThreeOperandsWin(p: string)
    requires LabOpNShape(p, 3).Some?
    ensures Cascade(p) == LabOpNShape(p, 3)
  {
    LabelledThreeOperandsExclusive(p);
    FirstMatchAt(Shapes(p), 2);
  }

  /** The same for a line without a label. */
  lemma IndentedThreeOperandsWin(p: string)
    requires OpNShape(p, 3).Some?
    ensures Cascade(p) == OpNShape(p, 3)
  {
    FirstMatchAt(Shapes(p), 3);
  }

  /** A line without `;` has no comment to strip. */
  lemma StripNoComment(text: string)
    requires ';' !in text
    ensures StripComment(text) == text
  {
  }

  /** The leading word of `s` is its first `n` characters when they are not
      whitespace and whitespace (or the end) follows them. */
  lemma {:induction false} WordLenIs(s: string, n: nat)
    requires n <= |s| && (forall i | 0 <= i < n :: !IsSpace(s[i])) && (n < |s| ==> IsSpace(s[n]))
    ensures WordLen(s) == n
  {
    if n > 0 {
      assert forall i | 0 <= i < n - 1 :: s[1..][i] == s[i + 1];
      WordLenIs(s[1..], n - 1);
    }
  }

  /** Operand text without a comma never splits into two or more operands. */
  lemma NoCommaNoOperands(s: string, n: nat)
    requires ',' !in s && n >= 2
    ensures Operands(s, n).None?
  {
    if Operands(s, n).Some? {
      OperandsSound(s, n);
      var i := |Operands(s, n).value[0]|;
      SkipSpaceSuffix(s[i..]);
    }
  }

  /** The first candidate that matches is the one chosen. */
  lemma {:induction false} FirstMatchAt(cands: seq<Option<Fields>>, k: nat)
    requires k < |cands| && cands[k].Some? && forall j | 0 <= j < k :: cands[j].None?
    ensures FirstMatch(cands) == cands[k]
  {
    if k > 0 {
      assert forall j | 0 <= j < k - 1 :: cands[1..][j] == cands[j + 1];
      FirstMatchAt(cands[1..], k - 1);
    }
  }
}
