/** `SymbolTable`: the map from label to address that pass 1 fills and pass 2
    reads. The source keeps it in class-level state; here each run owns one
    `SymbolTable` object. A label defined before any `.ORG` is bound to no
    address (`None`), as Python stores `None` there. */
module Symbols {
  import opened Wrappers
  import opened Errors

  type Table = map<string, Option<nat>>

  /** `add_label` on a table value: insert if absent, otherwise a
      `DuplicateLabel` error and no change. */
  function Add(t: Table, name: string, address: Option<nat>, line: nat): (r: Result<Table, SyntaxError>)
  {
    if name in t then Failure(SyntaxError(line, DuplicateLabel)) else Success(t[name := address])
  }

  /** `lookup_label` on a table value: the bound address, or an
      `UndefinedLabel` error. */
  function Find(t: Table, name: string, line: nat): (r: Result<Option<nat>, SyntaxError>)
  {
    if name in t then Success(t[name]) else Failure(SyntaxError(line, UndefinedLabel))
  }

  /** Adding succeeds exactly for a new name, adds that one binding and keeps
      every other one; a failed add leaves the table as it was. */
  lemma AddSpec(t: Table, name: string, address: Option<nat>, line: nat)
    ensures Add(t, name, address, line).Success? <==> name !in t
    ensures Add(t, name, address, line).Success? ==>
      var t' := Add(t, name, address, line).value;
      t'.Keys == t.Keys + {name} && t'[name] == address && forall l | l in t :: t'[l] == t[l]
    ensures Add(t, name, address, line).Failure? ==> Add(t, name, address, line).error == SyntaxError(line, DuplicateLabel)
  {
  }

  /** Add then find: the new name is found at its address, every other name
      is found (or missing) as before. */
  lemma FindAfterAdd(t: Table, name: string, address: Option<nat>, line: nat, other: string, line': nat)
    requires name !in t
    ensures Find(Add(t, name, address, line).value, name, line') == Success(address)
    ensures other != name ==> Find(Add(t, name, address, line).value, other, line') == Find(t, other, line')
  {
  }

  /** A name is found exactly when it has been added; the lookup never
      changes which labels are defined. */
  lemma FindSpec(t: Table, name: string, line: nat)
    ensures Find(t, name, line).Success? <==> name in t
    ensures Find(t, name, line).Success? ==> Find(t, name, line).value == t[name]
    ensures Find(t, name, line).Failure? ==> Find(t, name, line).error == SyntaxError(line, UndefinedLabel)
  {
  }

  class SymbolTable {
    var table: Table

    constructor()
      ensures table == map[]
    {
      table := map[];
    }

    /** `add_label`. */
    method AddLabel(name: string, address: Option<nat>, line: nat) returns (err: Option<SyntaxError>)
      modifies this
      ensures Add(old(table), name, address, line).Success? ==> err.None? && table == Add(old(table), name, address, line).value
      ensures Add(old(table), name, address, line).Failure? ==> err == Some(Add(old(table), name, address, line).error) && table == old(table)
    {
      if name in table {
        err := Some(SyntaxError(line, DuplicateLabel));
      } else {
        table := table[name := address];
        err := None;
      }
    }

    /** `lookup_label`. */
    method LookupLabel(name: string, line: nat) returns (r: Result<Option<nat>, SyntaxError>)
      ensures r == Find(table, name, line)
    {
      if name in table {
        r := Success(table[name]);
      } else {
        r := Failure(SyntaxError(line, UndefinedLabel));
      }
    }

    /** `clear`. */
    method Clear()
      modifies this
      ensures table == map[]
    {
      table := map[];
    }
  }
}
