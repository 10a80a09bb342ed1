/** `TableReference.FilterColumnReferences`
    (dll/Jhu.Graywulf.Sql/Sql/NameResolution/TableReference.cs): the columns of
    a table reference needed in a given column context. Primary-key columns,
    then key columns, then the referenced columns of the matching contexts are
    collected into a dictionary keyed by exact column name, so the first
    column of a name wins; the values are returned ordered by column ID.
    The dictionary is a sequence in insertion order. */
module ColumnFilter {
  import opened Wrappers
  import TR = TableReferences
  import opened ColumnReferences

  /** The schema object behind the table reference. */
  datatype TableOrView = TableOrView(columns: seq<Column>, primaryKey: Option<seq<Column>>)

  /** A missing table object, a column reference without a name (a null
      dictionary key), or a collected name that is not a column of the table. */
  datatype FilterError = NullTable | NullKey | KeyNotFound

  predicate HasName(res: seq<ColumnReference>, n: string)
  {
    exists k :: 0 <= k < |res| && res[k].columnName == Some(n)
  }

  predicate DistinctNames(res: seq<ColumnReference>)
  {
    (forall k :: 0 <= k < |res| ==> res[k].columnName.Some?) &&
    (forall i, j :: 0 <= i < j < |res| ==> res[i].columnName != res[j].columnName)
  }

  /** `c` is the reference built from one of the columns (a key column when
      `keysOnly`). */
  predicate BuiltFrom(c: ColumnReference, cols: seq<Column>, parent: Option<TR.TableReference>, keysOnly: bool)
  {
    exists j :: 0 <= j < |cols| && (!keysOnly || cols[j].isKey) && c == FromColumn(cols[j], parent)
  }

  /** Adds a reference for each column (only key columns when `keysOnly`)
      whose name is not yet collected. */
  function AddColumns(res: seq<ColumnReference>, cols: seq<Column>, parent: Option<TR.TableReference>, keysOnly: bool)
    : (r: seq<ColumnReference>)
    ensures |res| <= |r| && r[..|res|] == res
    ensures DistinctNames(res) ==> DistinctNames(r)
    ensures forall k :: 0 <= k < |cols| && (!keysOnly || cols[k].isKey) ==> HasName(r, cols[k].name)
  {
    if |cols| == 0 then res
    else
      var r0 := AddColumns(res, cols[..|cols| - 1], parent, keysOnly);
      var c := cols[|cols| - 1];
      assert forall k :: 0 <= k < |cols| - 1 ==> cols[..|cols| - 1][k] == cols[k];
      if (!keysOnly || c.isKey) && !HasName(r0, c.name) then
        var r := r0 + [FromColumn(c, parent)];
        assert r[..|r0|] == r0;
        assert forall n :: HasName(r0, n) ==> HasName(r, n);
        assert r[|r0|].columnName == Some(c.name);
        assert r[..|res|] == r0[..|res|];
        r
      else r0
  }

  /** Adds each column reference of a matching context (or of any context
      when non-referenced columns are asked for) whose name is not yet collected. */
  function AddReferences(res: seq<ColumnReference>, refs: seq<ColumnReference>, ctx: set<ColumnContextFlag>)
    : (r: Result<seq<ColumnReference>, FilterError>)
    ensures r.Ok? ==> |res| <= |r.value| && r.value[..|res|] == res
    ensures r.Ok? && DistinctNames(res) ==> DistinctNames(r.value)
    ensures r.Ok? ==> forall k :: 0 <= k < |res| && res[k].columnName.Some? ==> HasName(r.value, res[k].columnName.value)
    ensures r.Ok? ==> forall k :: 0 <= k < |refs| && Selected(refs[k], ctx) ==>
              refs[k].columnName.Some? && HasName(r.value, refs[k].columnName.value)
    ensures r.Ok? ==> forall k :: |res| <= k < |r.value| ==> r.value[k] in refs && Selected(r.value[k], ctx)
    ensures r.Err? <==> exists k :: 0 <= k < |refs| && Selected(refs[k], ctx) && refs[k].columnName.None?
    ensures r.Err? ==> r == Err(NullKey)
  {
    if |refs| == 0 then Ok(res)
    else
      var init := refs[..|refs| - 1];
      var cr := refs[|refs| - 1];
      assert forall k :: 0 <= k < |refs| - 1 ==> init[k] == refs[k];
      match AddReferences(res, init, ctx)
      case Err(e) => Err(e)
      case Ok(r0) =>
        if !Selected(cr, ctx) then Ok(r0)
        else if cr.columnName.None? then Err(NullKey)
        else if HasName(r0, cr.columnName.value) then Ok(r0)
        else
          var r := r0 + [cr];
          assert r[..|r0|] == r0;
          assert forall n :: HasName(r0, n) ==> HasName(r, n);
          assert r[|r0|] == cr;
          assert r[..|res|] == r0[..|res|];
          Ok(r)
  }

  /** A column reference takes part when its context meets the requested one,
      or when non-referenced columns are requested. */
  predicate Selected(cr: ColumnReference, ctx: set<ColumnContextFlag>)
  {
    ctx * cr.context != {} || NonReferenced in ctx
  }

  /** The dictionary after the three loops, or the exception that stops them. */
  function Gathered(parent: TR.TableReference, refs: seq<ColumnReference>, table: Option<TableOrView>,
                    ctx: set<ColumnContextFlag>): Result<seq<ColumnReference>, FilterError>
  {
    var afterPrimaryKey :=
      if PrimaryKey !in ctx then Ok([])
      else if table.None? then Err(NullTable)
      else if table.value.primaryKey.None? then Ok([])
      else Ok(AddColumns([], table.value.primaryKey.value, Some(parent), false));
    var afterKeys :=
      if afterPrimaryKey.Err? then afterPrimaryKey
      else if Key !in ctx then afterPrimaryKey
      else if table.None? then Err(NullTable)
      else Ok(AddColumns(afterPrimaryKey.value, table.value.columns, Some(parent), true));
    if afterKeys.Err? then afterKeys else AddReferences(afterKeys.value, refs, ctx)
  }

  /** The ID of the table's column of that name (`t.Columns[name].ID`). */
  function IdOf(t: TableOrView, name: string): (r: Option<int>)
    ensures r.Some? <==> exists k :: 0 <= k < |t.columns| && t.columns[k].name == name
  {
    IdIn(t.columns, name)
  }

  function IdIn(cols: seq<Column>, name: string): (r: Option<int>)
    ensures r.Some? <==> exists k :: 0 <= k < |cols| && cols[k].name == name
  {
    if |cols| == 0 then None
    else if cols[0].name == name then Some(cols[0].id)
    else
      assert forall k :: 1 <= k < |cols| ==> cols[1..][k - 1] == cols[k];
      IdIn(cols[1..], name)
  }

  predicate Known(t: TableOrView, c: ColumnReference)
  {
    c.columnName.Some? && IdOf(t, c.columnName.value).Some?
  }

  function KeyOf(t: TableOrView, c: ColumnReference): int
  {
    if Known(t, c) then IdOf(t, c.columnName.value).value else 0
  }

  predicate SortedBy(s: seq<ColumnReference>, t: TableOrView)
  {
    forall i, j :: 0 <= i < j < |s| ==> KeyOf(t, s[i]) <= KeyOf(t, s[j])
  }

  /** Inserts `x` before the first element of a greater ID: after the elements
      of an equal ID, so the ordering is stable. */
  function Insert(x: ColumnReference, s: seq<ColumnReference>, t: TableOrView): (r: seq<ColumnReference>)
    ensures multiset(r) == multiset(s) + multiset{x}
    ensures |r| == |s| + 1
  {
    if |s| == 0 then [x]
    else if KeyOf(t, x) < KeyOf(t, s[0]) then [x] + s
    else
      assert s == [s[0]] + s[1..];
      [s[0]] + Insert(x, s[1..], t)
  }

  lemma {:induction false} InsertKeepsSorted(x: ColumnReference, s: seq<ColumnReference>, t: TableOrView)
    requires SortedBy(s, t)
    ensures SortedBy(Insert(x, s, t), t)
  {
    if |s| > 0 && KeyOf(t, x) >= KeyOf(t, s[0]) {
      InsertKeepsSorted(x, s[1..], t);
      var tail := Insert(x, s[1..], t);
      forall k | 0 <= k < |tail|
        ensures KeyOf(t, s[0]) <= KeyOf(t, tail[k])
      {
        assert tail[k] in multiset(s[1..]) + multiset{x};
      }
    }
  }

  /** LINQ `OrderBy` on the column ID. */
  function SortById(s: seq<ColumnReference>, t: TableOrView): (r: seq<ColumnReference>)
    ensures multiset(r) == multiset(s) && SortedBy(r, t)
  {
    if |s| == 0 then []
    else
      assert s == s[..|s| - 1] + [s[|s| - 1]];
      InsertKeepsSorted(s[|s| - 1], SortById(s[..|s| - 1], t), t);
      Insert(s[|s| - 1], SortById(s[..|s| - 1], t), t)
  }

  /** The result of `FilterColumnReferences`. */
  function Filtered(parent: TR.TableReference, refs: seq<ColumnReference>, table: Option<TableOrView>,
                    ctx: set<ColumnContextFlag>): Result<seq<ColumnReference>, FilterError>
  {
    match Gathered(parent, refs, table, ctx)
    case Err(e) => Err(e)
    case Ok(res) =>
      if |res| == 0 then Ok([])
      else if table.None? then Err(NullTable)
      else if exists k :: 0 <= k < |res| && !Known(table.value, res[k]) then Err(KeyNotFound)
      else Ok(SortById(res, table.value))
  }

  /** One of the two column loops: adds a reference for each (key) column
      whose name is not in the dictionary yet. */
  method CollectColumns(res0: seq<ColumnReference>, cols: seq<Column>, parent: TR.TableReference, keysOnly: bool)
    returns (res: seq<ColumnReference>)
    ensures res == AddColumns(res0, cols, Some(parent), keysOnly)
  {
    res := res0;
    for i := 0 to |cols|
      invariant res == AddColumns(res0, cols[..i], Some(parent), keysOnly)
    {
      assert cols[..i + 1][..i] == cols[..i];
      if (!keysOnly || cols[i].isKey) && !HasName(res, cols[i].name) {
        res := res + [FromColumn(cols[i], Some(parent))];
      }
    }
    assert cols[..|cols|] == cols;
  }

  /** The loop over the table reference's own column references. */
  method CollectReferences(res0: seq<ColumnReference>, refs: seq<ColumnReference>, ctx: set<ColumnContextFlag>)
    returns (r: Result<seq<ColumnReference>, FilterError>)
    ensures r == AddReferences(res0, refs, ctx)
  {
    var res := res0;
    for i := 0 to |refs|
      invariant AddReferences(res0, refs[..i], ctx) == Ok(res)
    {
      assert refs[..i + 1][..i] == refs[..i];
      var cr := refs[i];
      if Selected(cr, ctx) {
        if cr.columnName.None? {
          assert refs[i] == cr;
          return Err(NullKey);
        }
        if !HasName(res, cr.columnName.value) {
          res := res + [cr];
        }
      }
    }
    assert refs[..|refs|] == refs;
    r := Ok(res);
  }

  method FilterColumnReferences(parent: TR.TableReference, refs: seq<ColumnReference>, table: Option<TableOrView>,
                                ctx: set<ColumnContextFlag>) returns (r: Result<seq<ColumnReference>, FilterError>)
    ensures r == Filtered(parent, refs, table, ctx)
  {
    var res: seq<ColumnReference> := [];
    if PrimaryKey in ctx {
      if table.None? {
        return Err(NullTable);
      }
      if table.value.primaryKey.Some? {
        res := CollectColumns(res, table.value.primaryKey.value, parent, false);
      }
    }
    if Key in ctx {
      if table.None? {
        return Err(NullTable);
      }
      res := CollectColumns(res, table.value.columns, parent, true);
    }
    var collected := CollectReferences(res, refs, ctx);
    assert collected == Gathered(parent, refs, table, ctx);
    if collected.Err? {
      return collected;
    }
    res := collected.value;
    if |res| == 0 {
      return Ok([]);
    }
    if table.None? {
      return Err(NullTable);
    }
    for k := 0 to |res|
      invariant forall k' :: 0 <= k' < k ==> Known(table.value, res[k'])
    {
      if !Known(table.value, res[k]) {
        return Err(KeyNotFound);
      }
    }
    r := Ok(SortById(res, table.value));
  }

  // ---------------------------------------------------------------------------
  // Properties of the filter

  lemma {:induction false} HasNameAfterPermutation(s: seq<ColumnReference>, u: seq<ColumnReference>, n: string)
    requires multiset(s) == multiset(u) && HasName(s, n)
    ensures HasName(u, n)
  {
    var k :| 0 <= k < |s| && s[k].columnName == Some(n);
    assert s[k] in multiset(u);
    var j :| 0 <= j < |u| && u[j] == s[k];
  }

  lemma GatheredDistinct(parent: TR.TableReference, refs: seq<ColumnReference>, table: Option<TableOrView>,
                         ctx: set<ColumnContextFlag>)
    requires Gathered(parent, refs, table, ctx).Ok?
    ensures DistinctNames(Gathered(parent, refs, table, ctx).value)
  {
    assert DistinctNames([]);
  }

  lemma {:induction false} DistinctCountAtMostOne(s: seq<ColumnReference>, x: ColumnReference)
    requires DistinctNames(s)
    ensures multiset(s)[x] <= 1
  {
    if |s| > 0 {
      var init := s[..|s| - 1];
      var last := s[|s| - 1];
      assert s == init + [last];
      assert DistinctNames(init);
      DistinctCountAtMostOne(init, x);
      if last == x {
        assert x !in init by {
          forall m | 0 <= m < |init|
            ensures init[m] != x
          {
            assert init[m].columnName != last.columnName;
          }
        }
      }
    }
  }

  lemma TwiceCountsTwice(u: seq<ColumnReference>, i: int, j: int)
    requires 0 <= i < j < |u|
    ensures u[i] == u[j] ==> multiset(u)[u[i]] >= 2
  {
    assert u == u[..i] + [u[i]] + u[i + 1..j] + [u[j]] + u[j + 1..];
  }

  lemma DistinctAfterPermutation(s: seq<ColumnReference>, u: seq<ColumnReference>)
    requires multiset(s) == multiset(u) && DistinctNames(s)
    ensures DistinctNames(u)
  {
    forall k | 0 <= k < |u|
      ensures u[k].columnName.Some?
    {
      assert u[k] in multiset(s);
    }
    forall i, j | 0 <= i < j < |u|
      ensures u[i].columnName != u[j].columnName
    {
      DistinctCountAtMostOne(s, u[i]);
      TwiceCountsTwice(u, i, j);
      assert u[i] != u[j];
      assert u[i] in multiset(s) && u[j] in multiset(s);
      var a :| 0 <= a < |s| && s[a] == u[i];
      var b :| 0 <= b < |s| && s[b] == u[j];
      assert a != b;
      assert s[a].columnName != s[b].columnName;
    }
  }

  /** The filtered columns have distinct names, are ordered by column ID, and
      are exactly the collected columns. */
  lemma FilteredIsOrderedAndDistinct(parent: TR.TableReference, refs: seq<ColumnReference>, table: Option<TableOrView>,
                                     ctx: set<ColumnContextFlag>)
    requires Filtered(parent, refs, table, ctx).Ok?
    ensures var r := Filtered(parent, refs, table, ctx).value;
            DistinctNames(r) && (|r| > 0 ==> table.Some? && SortedBy(r, table.value)) &&
            multiset(r) == multiset(Gathered(parent, refs, table, ctx).value)
  {
    GatheredDistinct(parent, refs, table, ctx);
    var res := Gathered(parent, refs, table, ctx).value;
    if |res| > 0 {
      DistinctAfterPermutation(res, SortById(res, table.value));
    }
  }

  /** Every primary-key column (when asked for), every key column (when asked
      for) and every selected column reference is represented by name. */
  lemma FilteredCoversRequested(parent: TR.TableReference, refs: seq<ColumnReference>, table: Option<TableOrView>,
                                ctx: set<ColumnContextFlag>)
    requires Filtered(parent, refs, table, ctx).Ok?
    ensures var r := Filtered(parent, refs, table, ctx).value;
            (PrimaryKey in ctx && table.Some? && table.value.primaryKey.Some? ==>
               forall k :: 0 <= k < |table.value.primaryKey.value| ==> HasName(r, table.value.primaryKey.value[k].name)) &&
            (Key in ctx && table.Some? ==>
               forall k :: 0 <= k < |table.value.columns| && table.value.columns[k].isKey ==>
                 HasName(r, table.value.columns[k].name)) &&
            (forall k :: 0 <= k < |refs| && Selected(refs[k], ctx) ==> HasName(r, refs[k].columnName.value))
  {
    var res := Gathered(parent, refs, table, ctx).value;
    var r := Filtered(parent, refs, table, ctx).value;
    forall n | HasName(res, n) ensures HasName(r, n) {
      if |res| > 0 {
        HasNameAfterPermutation(res, r, n);
      }
    }
  }

  /** Where a collected column can come from. */
  predicate Requested(c: ColumnReference, parent: TR.TableReference, refs: seq<ColumnReference>,
                      table: Option<TableOrView>, ctx: set<ColumnContextFlag>)
  {
    (c in refs && Selected(c, ctx)) ||
    (PrimaryKey in ctx && table.Some? && table.value.primaryKey.Some? &&
     BuiltFrom(c, table.value.primaryKey.value, Some(parent), false)) ||
    (Key in ctx && table.Some? && BuiltFrom(c, table.value.columns, Some(parent), true))
  }

  lemma {:induction false} AddColumnsOrigin(res: seq<ColumnReference>, cols: seq<Column>,
                                            parent: Option<TR.TableReference>, keysOnly: bool)
    ensures forall k :: |res| <= k < |AddColumns(res, cols, parent, keysOnly)| ==>
              BuiltFrom(AddColumns(res, cols, parent, keysOnly)[k], cols, parent, keysOnly)
  {
    if |cols| > 0 {
      var init := cols[..|cols| - 1];
      AddColumnsOrigin(res, init, parent, keysOnly);
      var r0 := AddColumns(res, init, parent, keysOnly);
      var r := AddColumns(res, cols, parent, keysOnly);
      forall k | |res| <= k < |r|
        ensures BuiltFrom(r[k], cols, parent, keysOnly)
      {
        if k < |r0| {
          assert r[k] == r0[k];
          assert BuiltFrom(r0[k], init, parent, keysOnly);
          var j :| 0 <= j < |init| && (!keysOnly || init[j].isKey) && r0[k] == FromColumn(init[j], parent);
          assert init[j] == cols[j];
        } else {
          assert r[k] == FromColumn(cols[|cols| - 1], parent);
        }
      }
    }
  }

  /** Every collected column was requested. */
  lemma GatheredOrigin(parent: TR.TableReference, refs: seq<ColumnReference>, table: Option<TableOrView>,
                       ctx: set<ColumnContextFlag>)
    requires Gathered(parent, refs, table, ctx).Ok?
    ensures var res := Gathered(parent, refs, table, ctx).value;
            forall k :: 0 <= k < |res| ==> Requested(res[k], parent, refs, table, ctx)
  {
    var res := Gathered(parent, refs, table, ctx).value;
    var pk: seq<ColumnReference> :=
      if PrimaryKey in ctx && table.value.primaryKey.Some? then AddColumns([], table.value.primaryKey.value, Some(parent), false)
      else [];
    if PrimaryKey in ctx && table.value.primaryKey.Some? {
      AddColumnsOrigin([], table.value.primaryKey.value, Some(parent), false);
    }
    var keys := if Key in ctx then AddColumns(pk, table.value.columns, Some(parent), true) else pk;
    if Key in ctx {
      AddColumnsOrigin(pk, table.value.columns, Some(parent), true);
    }
    assert res == AddReferences(keys, refs, ctx).value;
    forall k | 0 <= k < |res|
      ensures Requested(res[k], parent, refs, table, ctx)
    {
      if k < |pk| {
        assert res[k] == keys[k] == pk[k];
        assert BuiltFrom(pk[k], table.value.primaryKey.value, Some(parent), false);
      } else if k < |keys| {
        assert res[k] == keys[k];
        assert BuiltFrom(keys[k], table.value.columns, Some(parent), true);
      }
    }
  }

  /** Nothing else is returned: every column is built from a primary-key or key
      column of the table, or is one of the selected column references. */
  lemma FilteredHasNothingElse(parent: TR.TableReference, refs: seq<ColumnReference>, table: Option<TableOrView>,
                               ctx: set<ColumnContextFlag>)
    requires Filtered(parent, refs, table, ctx).Ok?
    ensures forall c :: c in Filtered(parent, refs, table, ctx).value ==> Requested(c, parent, refs, table, ctx)
  {
    var res := Gathered(parent, refs, table, ctx).value;
    var r := Filtered(parent, refs, table, ctx).value;
    GatheredOrigin(parent, refs, table, ctx);
    forall c | c in r
      ensures Requested(c, parent, refs, table, ctx)
    {
      assert c in multiset(res);
      var k :| 0 <= k < |res| && res[k] == c;
    }
  }
}
