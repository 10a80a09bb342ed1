/** Table references of SQL name resolution
    (dll/Jhu.Graywulf.Sql/Sql/NameResolution/TableReference.cs).

    A table reference carries the four name parts of a database object
    (dataset, database, schema, object), each possibly null, an alias, a
    variable name, a set of table-context flags and the computed and
    user-defined markers. The schema manager's name comparer is the parameter
    `cmp`, which says whether two non-null names are equal under the
    collation; `Util.RemoveIdentifierQuotes` is the parameter `unquote`. */
module TableReferences {
  import opened Wrappers

  datatype TableContextFlag =
    | TableOrView
    | Subquery
    | CommonTable
    | UserDefinedFunction
    | Variable
    | CreateTable
    | Target
    | OtherTableContext(bit: nat)

  datatype TableReference = TableReference(
    datasetName: Option<string>,
    databaseName: Option<string>,
    schemaName: Option<string>,
    objectName: Option<string>,
    alias: Option<string>,
    variableName: Option<string>,
    context: set<TableContextFlag>,
    isComputed: bool,
    isUserDefined: bool)

  /** A reference just after `InitializeMembers`: nothing named, no context. */
  function Fresh(): (t: TableReference)
    ensures IsUndefined(t) && IsCachable(t) && !IsPossiblyAlias(t)
  {
    TableReference(None, None, None, None, None, None, {}, false, false)
  }

  // ---------------------------------------------------------------------------
  // Predicates and names

  /** No dataset, database, schema or object name: the inherited
      `IsUndefined` of the object reference. */
  predicate NoNameParts(t: TableReference)
  {
    t.datasetName.None? && t.databaseName.None? && t.schemaName.None? && t.objectName.None?
  }

  predicate IsUndefined(t: TableReference)
  {
    NoNameParts(t) && t.alias.None? && t.variableName.None?
  }

  /** Contexts whose contents are not a stored table or view. */
  predicate UncachableContext(f: TableContextFlag)
  {
    f in {Subquery, CommonTable, UserDefinedFunction, Variable, CreateTable, Target}
  }

  function IsCachable(t: TableReference): (r: bool)
    ensures r <==> !t.isComputed && forall f :: f in t.context ==> !UncachableContext(f)
  {
    Subquery !in t.context && CommonTable !in t.context && UserDefinedFunction !in t.context &&
    Variable !in t.context && CreateTable !in t.context && Target !in t.context && !t.isComputed
  }

  /** Only a bare object name (or an alias) is given; the schema part is not
      looked at. */
  predicate IsPossiblyAlias(t: TableReference)
  {
    (t.alias.Some? || t.objectName.Some?) && t.datasetName.None? && t.databaseName.None? && t.variableName.None?
  }

  /** Whether a reference may be an alias does not depend on its schema name;
      a reference with a variable name, or with nothing named, is never one. */
  lemma PossiblyAliasIgnoresSchema(t: TableReference, schema: Option<string>)
    ensures IsPossiblyAlias(t.(schemaName := schema)) == IsPossiblyAlias(t)
    ensures t.variableName.Some? ==> !IsPossiblyAlias(t)
    ensures IsUndefined(t) ==> !IsPossiblyAlias(t)
    ensures t.objectName.Some? && t.datasetName.None? && t.databaseName.None? && t.variableName.None? ==>
            IsPossiblyAlias(t)
  {
  }

  /** `Char.IsWhiteSpace` for the characters of the Unicode space separator,
      line separator and paragraph separator categories and the control
      characters U+0009 to U+000D and U+0085. */
  predicate IsWhiteSpace(c: char)
  {
    ('\U{9}' <= c <= '\U{D}') || c == ' ' || c == '\U{85}' || c == '\U{A0}' || c == '\U{1680}' ||
    ('\U{2000}' <= c <= '\U{200A}') || c == '\U{2028}' || c == '\U{2029}' || c == '\U{202F}' ||
    c == '\U{205F}' || c == '\U{3000}'
  }

  /** `String.IsNullOrWhiteSpace`. */
  predicate IsBlank(s: Option<string>)
  {
    s.None? || forall k :: 0 <= k < |s.value| ==> IsWhiteSpace(s.value[k])
  }

  /** The unique name: a non-blank variable name as it is, otherwise a non-blank
      alias in brackets, otherwise the object reference's own unique name,
      which is the parameter `baseName`. */
  function UniqueName(t: TableReference, baseName: string): (r: string)
    ensures !IsBlank(t.variableName) ==> r == t.variableName.value
    ensures IsBlank(t.variableName) && !IsBlank(t.alias) ==> r == "[" + t.alias.value + "]"
    ensures IsBlank(t.variableName) && IsBlank(t.alias) ==> r == baseName
  {
    if !IsBlank(t.variableName) then t.variableName.value
    else if !IsBlank(t.alias) then "[" + t.alias.value + "]"
    else baseName
  }

  /** Two references without variable names and with non-blank aliases have
      the same unique name exactly when their aliases are the same: the
      bracketing keeps aliases apart. */
  lemma UniqueNameSeparatesAliases(a: TableReference, b: TableReference, baseName: string)
    requires IsBlank(a.variableName) && IsBlank(b.variableName)
    requires !IsBlank(a.alias) && !IsBlank(b.alias)
    ensures UniqueName(a, baseName) == UniqueName(b, baseName) <==> a.alias == b.alias
  {
    var x, y := UniqueName(a, baseName), UniqueName(b, baseName);
    if x == y {
      assert a.alias.value == x[1..|x| - 1];
      assert b.alias.value == y[1..|y| - 1];
    }
  }

  /** A variable name that is not blank wins over any alias. */
  lemma UniqueNameOfVariable(t: TableReference, alias: Option<string>, baseName: string)
    requires !IsBlank(t.variableName)
    ensures UniqueName(t.(alias := alias), baseName) == UniqueName(t, baseName) == t.variableName.value
  {
  }

  /** The name under which the columns of the reference are exported. */
  function ExportedName(t: TableReference): (r: Option<string>)
    ensures (Subquery in t.context || CommonTable in t.context || UserDefinedFunction in t.context ||
             t.isComputed || t.alias.Some?) ==> r == t.alias
    ensures !(Subquery in t.context || CommonTable in t.context || UserDefinedFunction in t.context ||
              t.isComputed || t.alias.Some?) ==>
              r == (if Variable in t.context then t.variableName else t.objectName)
  {
    if Subquery in t.context || CommonTable in t.context || UserDefinedFunction in t.context ||
       t.isComputed || t.alias.Some? then t.alias
    else if Variable in t.context then t.variableName
    else t.objectName
  }

  // ---------------------------------------------------------------------------
  // Comparison

  /** `Comparer.Compare(x, y) == 0` with .NET's treatment of null: null equals
      null and nothing else. */
  predicate NameEquals(x: Option<string>, y: Option<string>, cmp: (string, string) -> bool)
  {
    if x.None? || y.None? then x.None? && y.None? else cmp(x.value, y.value)
  }

  /** A name part matches when either side leaves it out. */
  predicate PartMatches(x: Option<string>, y: Option<string>, cmp: (string, string) -> bool)
  {
    x.None? || y.None? || cmp(x.value, y.value)
  }

  predicate Unspecified(t: TableReference)
  {
    NoNameParts(t) && t.alias.None?
  }

  predicate AliasMatches(a: TableReference, b: TableReference, cmp: (string, string) -> bool)
  {
    Unspecified(a) || Unspecified(b) || (a.alias.None? && b.alias.None?) ||
    (a.alias.Some? && b.alias.Some? && cmp(a.alias.value, b.alias.value))
  }

  /** `Compare`: the same reference matches itself; otherwise every name part
      must match and the aliases must agree. Value equality stands for the
      object identity test of the source (see `IdentityIsRedundant`). */
  predicate Compare(a: TableReference, b: TableReference, cmp: (string, string) -> bool)
  {
    a == b ||
    (PartMatches(a.datasetName, b.datasetName, cmp) &&
     PartMatches(a.databaseName, b.databaseName, cmp) &&
     PartMatches(a.schemaName, b.schemaName, cmp) &&
     PartMatches(a.objectName, b.objectName, cmp) &&
     AliasMatches(a, b, cmp))
  }

  ghost predicate Reflexive(cmp: (string, string) -> bool)
  {
    forall x :: cmp(x, x)
  }

  ghost predicate Symmetric(cmp: (string, string) -> bool)
  {
    forall x, y :: cmp(x, y) ==> cmp(y, x)
  }

  /** Under a reflexive comparer the name-by-name test already accepts equal
      references, so the identity test only saves work. */
  lemma IdentityIsRedundant(t: TableReference, cmp: (string, string) -> bool)
    requires Reflexive(cmp)
    ensures PartMatches(t.datasetName, t.datasetName, cmp) && PartMatches(t.databaseName, t.databaseName, cmp)
    ensures PartMatches(t.schemaName, t.schemaName, cmp) && PartMatches(t.objectName, t.objectName, cmp)
    ensures AliasMatches(t, t, cmp)
  {
    if t.alias.Some? {
      assert cmp(t.alias.value, t.alias.value);
    }
  }

  /** Every clause of the comparison treats its two sides alike. */
  lemma CompareSymmetric(a: TableReference, b: TableReference, cmp: (string, string) -> bool)
    requires Symmetric(cmp)
    ensures Compare(a, b, cmp) <==> Compare(b, a, cmp)
  {
  }

  /** A reference that names nothing is a wildcard that matches any table. */
  lemma UnspecifiedMatchesAll(a: TableReference, b: TableReference, cmp: (string, string) -> bool)
    requires Unspecified(a)
    ensures Compare(a, b, cmp) && Compare(b, a, cmp)
  {
  }

  /** Each name part present on both sides must be equal under the comparer. */
  lemma ComparedPartsAgree(a: TableReference, b: TableReference, cmp: (string, string) -> bool)
    requires Compare(a, b, cmp) && a != b
    ensures a.datasetName.Some? && b.datasetName.Some? ==> cmp(a.datasetName.value, b.datasetName.value)
    ensures a.databaseName.Some? && b.databaseName.Some? ==> cmp(a.databaseName.value, b.databaseName.value)
    ensures a.schemaName.Some? && b.schemaName.Some? ==> cmp(a.schemaName.value, b.schemaName.value)
    ensures a.objectName.Some? && b.objectName.Some? ==> cmp(a.objectName.value, b.objectName.value)
  {
  }

  /** An aliased reference never matches an unaliased one once both name
      some object part, and two aliases must be equal under the comparer. */
  lemma AliasMustAgree(a: TableReference, b: TableReference, cmp: (string, string) -> bool)
    requires a != b && !NoNameParts(a) && !NoNameParts(b)
    ensures a.alias.Some? && b.alias.None? ==> !Compare(a, b, cmp)
    ensures a.alias.Some? && b.alias.Some? && Compare(a, b, cmp) ==> cmp(a.alias.value, b.alias.value)
  {
  }

  // ---------------------------------------------------------------------------
  // Interpretation of parse nodes

  /** The name parts of a four-part identifier, part 1 being the last written. */
  datatype FourPartIdentifier = FourPartIdentifier(
    part1: Option<string>, part2: Option<string>, part3: Option<string>, part4: Option<string>)

  datatype NameError = TableNameTooManyParts | NullReference

  function Unquoted(s: Option<string>, unquote: string -> string): Option<string>
  {
    if s.None? then None else Some(unquote(s.value))
  }

  /** `Interpret(TableOrViewIdentifier)`: a fourth name part is an error;
      otherwise parts 3, 2 and 1 are database, schema and object name. */
  function InterpretTableOrView(dataset: Option<string>, fpi: FourPartIdentifier, unquote: string -> string): (r: Result<TableReference, NameError>)
    ensures r.Err? <==> fpi.part4.Some?
    ensures r.Ok? ==> r.value.datasetName == Unquoted(dataset, unquote) &&
                      r.value.databaseName == Unquoted(fpi.part3, unquote) &&
                      r.value.schemaName == Unquoted(fpi.part2, unquote) &&
                      r.value.objectName == Unquoted(fpi.part1, unquote)
    ensures r.Ok? ==> r.value.context == {TableOrView} && r.value.isUserDefined &&
                      r.value.alias.None? && r.value.variableName.None? && !r.value.isComputed
  {
    if fpi.part4.Some? then Err(TableNameTooManyParts)
    else Ok(Fresh().(
      datasetName := Unquoted(dataset, unquote),
      databaseName := Unquoted(fpi.part3, unquote),
      schemaName := Unquoted(fpi.part2, unquote),
      objectName := Unquoted(fpi.part1, unquote),
      isUserDefined := true,
      context := {TableOrView}))
  }

  /** `Interpret(ColumnIdentifier, columnNameLast)`: the table part of a column
      identifier. When the last part is the column name, the table parts are
      read one position further left. */
  function InterpretColumnIdentifier(dataset: Option<string>, fpi: FourPartIdentifier, columnNameLast: bool,
                                     unquote: string -> string): (t: TableReference)
    ensures TableOrView in t.context && t.isUserDefined && t.alias.None? && t.variableName.None?
    ensures t.datasetName == Unquoted(dataset, unquote)
  {
    var named :=
      if columnNameLast then
        Fresh().(datasetName := Unquoted(dataset, unquote), databaseName := Unquoted(fpi.part4, unquote),
                 schemaName := Unquoted(fpi.part3, unquote), objectName := Unquoted(fpi.part2, unquote))
      else
        Fresh().(datasetName := Unquoted(dataset, unquote), databaseName := Unquoted(fpi.part3, unquote),
                 schemaName := Unquoted(fpi.part2, unquote), objectName := Unquoted(fpi.part1, unquote));
    named.(isUserDefined := true, context := named.context + {TableOrView})
  }

  /** The identifier with its parts moved one position to the right, dropping
      the column name in part 1. */
  function ShiftedRight(fpi: FourPartIdentifier): FourPartIdentifier
  {
    FourPartIdentifier(fpi.part2, fpi.part3, fpi.part4, None)
  }

  /** With `columnNameLast` the parts shift by one: part 4 is the database,
      part 3 the schema and part 2 the object. */
  lemma ColumnNameLastShiftsParts(dataset: Option<string>, fpi: FourPartIdentifier, unquote: string -> string)
    ensures InterpretColumnIdentifier(dataset, fpi, true, unquote) ==
            InterpretColumnIdentifier(dataset, ShiftedRight(fpi), false, unquote)
    ensures InterpretColumnIdentifier(dataset, fpi, true, unquote).objectName == Unquoted(fpi.part2, unquote)
  {
  }

  /** The table part of a column identifier agrees with the table identifier
      of the same parts, whenever that one is legal. */
  lemma ColumnIdentifierAgreesWithTable(dataset: Option<string>, fpi: FourPartIdentifier, unquote: string -> string)
    requires fpi.part4.None?
    ensures InterpretTableOrView(dataset, fpi, unquote) == Ok(InterpretColumnIdentifier(dataset, fpi, false, unquote))
  {
    assert Fresh().context + {TableOrView} == {TableOrView};
  }

  /** `Interpret(FunctionTableSource)`: a table-valued function call. */
  function InterpretFunction(alias: Option<string>, fr: TableReference, unquote: string -> string): (t: TableReference)
    ensures t.context == {UserDefinedFunction} && t.alias == Unquoted(alias, unquote)
    ensures t.datasetName == fr.datasetName && t.databaseName == fr.databaseName &&
            t.schemaName == fr.schemaName && t.objectName == fr.objectName
  {
    Fresh().(alias := Unquoted(alias, unquote), datasetName := fr.datasetName, databaseName := fr.databaseName,
             schemaName := fr.schemaName, objectName := fr.objectName, context := {UserDefinedFunction})
  }

  /** `Interpret(SimpleTableSource)`: the table reference of the source with
      the alias set (a missing alias clears it); the name parts, the variable
      name, the context and the markers are those of the source's reference. */
  function InterpretSimple(tr: TableReference, alias: Option<string>, unquote: string -> string): (t: TableReference)
    ensures t.alias.Some? <==> alias.Some?
    ensures alias.Some? ==> t.alias == Some(unquote(alias.value))
    ensures t.datasetName == tr.datasetName && t.databaseName == tr.databaseName &&
            t.schemaName == tr.schemaName && t.objectName == tr.objectName
    ensures t.variableName == tr.variableName && t.context == tr.context
    ensures t.isComputed == tr.isComputed && t.isUserDefined == tr.isUserDefined
  {
    tr.(alias := Unquoted(alias, unquote))
  }

  /** Aliasing a table source keeps what the table is: its cachability and
      its column loader. An alias becomes the exported name and, without a
      variable name, the unique name; without one the reference is exported
      and named as if it had never been aliased. Interpreting twice is
      interpreting once with the last alias. */
  lemma InterpretSimpleKeepsTable(tr: TableReference, alias: Option<string>, other: Option<string>,
                                  unquote: string -> string, baseName: string)
    ensures IsCachable(InterpretSimple(tr, alias, unquote)) == IsCachable(tr)
    ensures LoadColumnSource(InterpretSimple(tr, alias, unquote)) == LoadColumnSource(tr)
    ensures alias.Some? ==> ExportedName(InterpretSimple(tr, alias, unquote)) == Some(unquote(alias.value))
    ensures alias.None? ==> ExportedName(InterpretSimple(tr, alias, unquote)) == ExportedName(tr.(alias := None))
    ensures alias.Some? && IsBlank(tr.variableName) && !IsBlank(Some(unquote(alias.value))) ==>
              UniqueName(InterpretSimple(tr, alias, unquote), baseName) == "[" + unquote(alias.value) + "]"
    ensures alias.None? ==> UniqueName(InterpretSimple(tr, alias, unquote), baseName) == UniqueName(tr.(alias := None), baseName)
    ensures InterpretSimple(InterpretSimple(tr, other, unquote), alias, unquote) == InterpretSimple(tr, alias, unquote)
  {
    var t := InterpretSimple(tr, alias, unquote);
    assert t == tr.(alias := t.alias);
  }

  /** `Interpret(VariableTableSource)`: a table variable. */
  function InterpretVariable(alias: Option<string>, variableName: Option<string>, unquote: string -> string): (t: TableReference)
    ensures t.context == {Variable} && t.variableName == variableName && t.alias == Unquoted(alias, unquote)
    ensures NoNameParts(t)
  {
    Fresh().(alias := Unquoted(alias, unquote), variableName := variableName, context := {Variable})
  }

  /** `Interpret(SubqueryTableSource)`: the alias is read without a null
      check, so a subquery without one fails. */
  function InterpretSubquery(alias: Option<string>, unquote: string -> string): (r: Result<TableReference, NameError>)
    ensures r.Err? <==> alias.None?
    ensures r.Ok? ==> r.value.context == {Subquery} && r.value.alias == Some(unquote(alias.value))
  {
    if alias.None? then Err(NullReference)
    else Ok(Fresh().(alias := Some(unquote(alias.value)), context := {Subquery}))
  }

  /** `Interpret(CommonTableSpecification)`: a common table expression is
      both a subquery and a common table. */
  function InterpretCommonTable(alias: Option<string>, unquote: string -> string): (r: Result<TableReference, NameError>)
    ensures r.Err? <==> alias.None?
    ensures r.Ok? ==> r.value.context == {Subquery, CommonTable} && r.value.alias == Some(unquote(alias.value))
  {
    if alias.None? then Err(NullReference)
    else Ok(Fresh().(alias := Some(unquote(alias.value)), context := {Subquery, CommonTable}))
  }

  /** Tables and views named by an identifier are cachable and exported under
      their object name; subqueries, common tables, functions and variables
      are not cachable and are exported under their alias or variable name. */
  lemma InterpretedCachability(dataset: Option<string>, fpi: FourPartIdentifier, alias: Option<string>,
                               variableName: Option<string>, fr: TableReference, unquote: string -> string)
    ensures InterpretTableOrView(dataset, fpi, unquote).Ok? ==>
              var t := InterpretTableOrView(dataset, fpi, unquote).value;
              IsCachable(t) && ExportedName(t) == t.objectName
    ensures !IsCachable(InterpretFunction(alias, fr, unquote)) &&
            ExportedName(InterpretFunction(alias, fr, unquote)) == Unquoted(alias, unquote)
    ensures !IsCachable(InterpretVariable(alias, variableName, unquote))
    ensures alias.None? ==> ExportedName(InterpretVariable(alias, variableName, unquote)) == variableName
    ensures InterpretSubquery(alias, unquote).Ok? ==> !IsCachable(InterpretSubquery(alias, unquote).value)
    ensures InterpretCommonTable(alias, unquote).Ok? ==>
              var t := InterpretCommonTable(alias, unquote).value;
              !IsCachable(t) && ExportedName(t) == t.alias
  {
  }

  /** A table identifier may be an alias exactly when it names an object and
      no dataset or database; a schema-qualified name still counts. */
  lemma TableIdentifierPossiblyAlias(dataset: Option<string>, fpi: FourPartIdentifier, unquote: string -> string)
    requires fpi.part4.None?
    ensures IsPossiblyAlias(InterpretTableOrView(dataset, fpi, unquote).value) <==>
            fpi.part1.Some? && fpi.part3.None? && dataset.None?
  {
  }

  // ---------------------------------------------------------------------------
  // Loading column references

  datatype ColumnSource = UdfColumns | TableOrViewColumns
  datatype LoadError = InvalidOperation | NotImplemented

  /** The dispatch of `LoadColumnReferences`: subqueries and common tables are
      refused, functions load from the function's schema, tables and views from
      the table's, and any other context is not implemented. */
  function LoadColumnSource(t: TableReference): (r: Result<ColumnSource, LoadError>)
    ensures r == Err(InvalidOperation) <==> (CommonTable in t.context || Subquery in t.context)
    ensures r == Ok(UdfColumns) <==>
              (CommonTable !in t.context && Subquery !in t.context && UserDefinedFunction in t.context)
    ensures r == Ok(TableOrViewColumns) <==>
              (CommonTable !in t.context && Subquery !in t.context && UserDefinedFunction !in t.context &&
               TableOrView in t.context)
  {
    if CommonTable in t.context || Subquery in t.context then Err(InvalidOperation)
    else if UserDefinedFunction in t.context then Ok(UdfColumns)
    else if TableOrView in t.context then Ok(TableOrViewColumns)
    else Err(NotImplemented)
  }

  /** Each interpretation lands in the loader its context calls for; a table
      variable has no loader. */
  lemma InterpretedColumnSources(dataset: Option<string>, fpi: FourPartIdentifier, alias: Option<string>,
                                 variableName: Option<string>, fr: TableReference, columnNameLast: bool,
                                 unquote: string -> string)
    ensures InterpretTableOrView(dataset, fpi, unquote).Ok? ==>
              LoadColumnSource(InterpretTableOrView(dataset, fpi, unquote).value) == Ok(TableOrViewColumns)
    ensures LoadColumnSource(InterpretColumnIdentifier(dataset, fpi, columnNameLast, unquote)) == Ok(TableOrViewColumns)
    ensures LoadColumnSource(InterpretFunction(alias, fr, unquote)) == Ok(UdfColumns)
    ensures LoadColumnSource(InterpretVariable(alias, variableName, unquote)) == Err(NotImplemented)
    ensures InterpretSubquery(alias, unquote).Ok? ==>
              LoadColumnSource(InterpretSubquery(alias, unquote).value) == Err(InvalidOperation)
    ensures InterpretCommonTable(alias, unquote).Ok? ==>
              LoadColumnSource(InterpretCommonTable(alias, unquote).value) == Err(InvalidOperation)
  {
  }
}
