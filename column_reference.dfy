/** Column references of SQL name resolution
    (dll/Jhu.Graywulf.Sql/Sql/NameResolution/ColumnReference.cs), and the
    column filter of table references
    (dll/Jhu.Graywulf.Sql/Sql/NameResolution/TableReference.cs), which builds
    column references and so lives beside them.

    Column references are values; data-type references are not part of this
    model. */
module ColumnReferences {
  import opened Wrappers
  import TR = TableReferences

  datatype ColumnContextFlag =
    | PrimaryKey
    | Key
    | Identity
    | NonReferenced
    | OtherColumnContext(bit: nat)

  datatype ColumnReference = ColumnReference(
    parent: Option<TR.TableReference>,
    columnName: Option<string>,
    columnAlias: Option<string>,
    isStar: bool,
    isMultiPart: bool,
    isComplex: bool,
    selectListIndex: int,
    context: set<ColumnContextFlag>)

  /** A column of a table, view or function in the schema. */
  datatype Column = Column(name: string, id: int, isKey: bool, isIdentity: bool)

  /** A column reference after `InitializeMembers`. */
  function Initial(): (c: ColumnReference)
    ensures c.parent.None? && c.columnName.None? && c.columnAlias.None?
    ensures !c.isStar && !c.isMultiPart && !c.isComplex
    ensures c.selectListIndex == -1 && c.context == {}
    ensures !IsReferenced(c)
  {
    ColumnReference(None, None, None, false, false, false, -1, {})
  }

  /** Referenced in some context of the query. */
  predicate IsReferenced(c: ColumnReference)
  {
    c.context != {}
  }

  /** Any context flag at all marks a column as referenced, even
      `NonReferenced`, since the test is only that some flag bit is set. */
  lemma ContextFlagMarksReferenced(c: ColumnReference, f: ColumnContextFlag)
    ensures IsReferenced(c.(context := c.context + {f}))
    ensures !IsReferenced(c.(context := {}))
    ensures IsReferenced(c) ==> exists g :: g in c.context
  {
    assert f in c.(context := c.context + {f}).context;
    if IsReferenced(c) {
      var g :| g in c.context;
    }
  }

  /** The constructor from a schema column: the reference is named after the
      column and marked as primary key and identity as the column is. */
  function FromColumn(col: Column, parent: Option<TR.TableReference>): (c: ColumnReference)
    ensures c.columnName == Some(col.name) && c.parent == parent
    ensures PrimaryKey in c.context <==> col.isKey
    ensures Identity in c.context <==> col.isIdentity
    ensures c.context <= {PrimaryKey, Identity}
    ensures IsReferenced(c) <==> col.isKey || col.isIdentity
  {
    var c := Initial().(parent := parent, columnName := Some(col.name));
    var c := if col.isKey then c.(context := c.context + {PrimaryKey}) else c;
    if col.isIdentity then c.(context := c.context + {Identity}) else c
  }

  /** `CreateStar()`: a star column with a fresh, undefined table reference. */
  function CreateStar(): (c: ColumnReference)
    ensures c.isStar && c.columnName == Some("*") && c.parent == Some(TR.Fresh())
    ensures TR.IsUndefined(c.parent.value)
  {
    Initial().(isStar := true, columnName := Some("*"), parent := Some(TR.Fresh()))
  }

  /** `CreateStar(tableReference)`. */
  function CreateStarOf(t: TR.TableReference): (c: ColumnReference)
    ensures c.isStar && c.columnName == Some("*") && c.parent == Some(t)
  {
    CreateStar().(parent := Some(t))
  }

  // ---------------------------------------------------------------------------
  // Comparison

  /** `CompareByName`: the other column's alias when it has one, its column
      name otherwise. */
  predicate CompareByName(a: ColumnReference, b: ColumnReference, cmp: (string, string) -> bool)
  {
    if b.columnAlias.Some? then TR.NameEquals(a.columnName, b.columnAlias, cmp)
    else TR.NameEquals(a.columnName, b.columnName, cmp)
  }

  predicate TableUndefined(p: Option<TR.TableReference>)
  {
    p.None? || TR.IsUndefined(p.value)
  }

  datatype CompareError = InvalidOperation | NullReference

  /** `Compare`. The other column must have a table or be a complex
      expression. A column without a defined table is matched by name; a column
      matched against one without a defined table must itself have no table and
      be named like the other's alias; otherwise both tables and the names
      must match. A complex column without a table against a column with a
      defined table dereferences the missing table. */
  function Compare(a: ColumnReference, b: ColumnReference, cmp: (string, string) -> bool): (r: Result<bool, CompareError>)
    ensures r == Err(InvalidOperation) <==> b.parent.None? && !b.isComplex
    ensures r == Err(NullReference) <==>
              !(b.parent.None? && !b.isComplex) && a.parent.None? && a.isComplex && !TableUndefined(b.parent)
    ensures r.Ok? && TableUndefined(a.parent) && !a.isComplex ==> (r.value <==> CompareByName(a, b, cmp))
    ensures r.Ok? && !(TableUndefined(a.parent) && !a.isComplex) && TableUndefined(b.parent) ==>
              (r.value <==> a.parent.None? && TR.NameEquals(a.columnName, b.columnAlias, cmp))
    ensures r.Ok? && !(TableUndefined(a.parent) && !a.isComplex) && !TableUndefined(b.parent) ==>
              (r.value <==> TR.Compare(a.parent.value, b.parent.value, cmp) && CompareByName(a, b, cmp))
  {
    if b.parent.None? && !b.isComplex then Err(InvalidOperation)
    else if TableUndefined(a.parent) && !a.isComplex then Ok(CompareByName(a, b, cmp))
    else if TableUndefined(b.parent) then Ok(a.parent.None? && TR.NameEquals(a.columnName, b.columnAlias, cmp))
    else if a.parent.None? then Err(NullReference)
    else Ok(TR.Compare(a.parent.value, b.parent.value, cmp) && CompareByName(a, b, cmp))
  }

  /** An unaliased, named column with a table matches itself under a reflexive
      comparer; an aliased one matches itself only if its name and alias agree. */
  lemma CompareWithItself(c: ColumnReference, cmp: (string, string) -> bool)
    requires TR.Reflexive(cmp) && c.parent.Some? && !TR.IsUndefined(c.parent.value) && c.columnName.Some?
    ensures c.columnAlias.None? ==> Compare(c, c, cmp) == Ok(true)
    ensures c.columnAlias.Some? ==> Compare(c, c, cmp) == Ok(cmp(c.columnName.value, c.columnAlias.value))
  {
    TR.IdentityIsRedundant(c.parent.value, cmp);
    assert cmp(c.columnName.value, c.columnName.value);
  }

  /** A column written without a table is found in any table by name alone. */
  lemma UnqualifiedMatchesByName(a: ColumnReference, b: ColumnReference, cmp: (string, string) -> bool)
    requires a.parent.None? && !a.isComplex && a.columnName.Some?
    requires b.parent.Some? && b.columnAlias.None? && b.columnName.Some?
    ensures Compare(a, b, cmp) == Ok(cmp(a.columnName.value, b.columnName.value))
  {
  }

  /** Matching against an aliased column looks only at the alias. */
  lemma AliasHidesName(a: ColumnReference, b: ColumnReference, name: Option<string>, cmp: (string, string) -> bool)
    requires b.columnAlias.Some?
    ensures CompareByName(a, b, cmp) == CompareByName(a, b.(columnName := name), cmp)
  {
  }

  // ---------------------------------------------------------------------------
  // Rendering

  /** The text `ToString` builds: the table text and a dot when the table is
      defined, `*` or the bracketed name, then ` AS [alias]` when aliased.
      `TableReference.ToString` is the parameter `tableText`; a null name
      formats as empty. */
  function Rendered(c: ColumnReference, tableText: TR.TableReference -> string): string
  {
    TablePart(c, tableText) + NamePart(c) + AliasPart(c)
  }

  function TablePart(c: ColumnReference, tableText: TR.TableReference -> string): string
  {
    if !TableUndefined(c.parent) then tableText(c.parent.value) + "." else ""
  }

  function NamePart(c: ColumnReference): string
  {
    if c.isStar then "*" else "[" + (if c.columnName.Some? then c.columnName.value else "") + "]"
  }

  function AliasPart(c: ColumnReference): string
  {
    if c.columnAlias.Some? then " AS [" + c.columnAlias.value + "]" else ""
  }

  /** `ToString`, accumulating the text step by step. */
  method ToString(c: ColumnReference, tableText: TR.TableReference -> string) returns (res: string)
    ensures res == Rendered(c, tableText)
  {
    res := "";
    if c.parent.Some? && !TR.IsUndefined(c.parent.value) {
      res := res + tableText(c.parent.value);
      res := res + ".";
    }
    assert res == TablePart(c, tableText);
    if c.isStar {
      res := res + "*";
    } else {
      res := res + "[" + (if c.columnName.Some? then c.columnName.value else "") + "]";
    }
    assert res == TablePart(c, tableText) + NamePart(c);
    if c.columnAlias.Some? {
      res := res + " AS [" + c.columnAlias.value + "]";
    }
  }

  /** A star column with no table renders as `*`; with a defined table, as the
      table text followed by `.*`. */
  lemma StarRendering(t: TR.TableReference, tableText: TR.TableReference -> string)
    ensures Rendered(CreateStar(), tableText) == "*"
    ensures !TR.IsUndefined(t) ==> Rendered(CreateStarOf(t), tableText) == tableText(t) + ".*"
  {
  }

  /** The rendering starts with the table prefix exactly when the table is
      defined, and ends with the alias clause when there is an alias. */
  lemma RenderingParts(c: ColumnReference, tableText: TR.TableReference -> string)
    ensures var s := Rendered(c, tableText);
            !TableUndefined(c.parent) ==> s[..|tableText(c.parent.value)| + 1] == tableText(c.parent.value) + "."
    ensures var s := Rendered(c, tableText);
            c.columnAlias.Some? ==>
              var tail := " AS [" + c.columnAlias.value + "]";
              |s| >= |tail| && s[|s| - |tail|..] == tail
  {
    var s := Rendered(c, tableText);
    var prefix := if !TableUndefined(c.parent) then tableText(c.parent.value) + "." else "";
    var middle := if c.isStar then "*" else "[" + (if c.columnName.Some? then c.columnName.value else "") + "]";
    var suffix := if c.columnAlias.Some? then " AS [" + c.columnAlias.value + "]" else "";
    assert s == prefix + middle + suffix;
    assert s[..|prefix|] == prefix;
    assert s[|s| - |suffix|..] == suffix;
  }
}
