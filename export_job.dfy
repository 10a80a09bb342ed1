/** The table list shown for an export job on the web UI
    (web/Jhu.Graywulf.Web.UI/Api/ExportJob.cs). */
module ExportJobs {
  import opened Wrappers

  /** Names joined in array order, ", " before every name but the first. */
  function Join(names: seq<string>): string
  {
    if |names| == 0 then ""
    else if |names| == 1 then names[0]
    else Join(names[..|names| - 1]) + ", " + names[|names| - 1]
  }

  /** Sum of the lengths of the names. */
  function TotalLength(names: seq<string>): nat
  {
    if |names| == 0 then 0 else TotalLength(names[..|names| - 1]) + |names[|names| - 1]|
  }

  /** The `TableList` property: the empty string when there is no table array,
      otherwise the names joined by the loop that appends ", " before each
      element at an index above zero. */
  method TableList(tables: Option<seq<string>>) returns (res: string)
    ensures tables.None? ==> res == ""
    ensures tables.Some? ==> res == Join(tables.value)
    ensures tables.Some? && |tables.value| == 1 ==> res == tables.value[0]
    ensures tables.Some? && |tables.value| >= 1 ==>
              |res| == TotalLength(tables.value) + 2 * (|tables.value| - 1)
  {
    if tables.Some? {
      var t := tables.value;
      res := "";
      for i := 0 to |t|
        invariant res == Join(t[..i])
      {
        if i > 0 {
          res := res + ", ";
        }
        res := res + t[i];
        assert t[..i + 1][..i] == t[..i];
      }
      assert t[..|t|] == t;
      if |t| >= 1 {
        JoinLength(t);
      }
    } else {
      res := "";
    }
  }

  /** Appending a name to a non-empty list appends the separator and the name. */
  lemma {:induction false} JoinSnoc(names: seq<string>, name: string)
    requires |names| >= 1
    ensures Join(names + [name]) == Join(names) + ", " + name
  {
    assert (names + [name])[..|names|] == names;
  }

  /** The joined text is as long as all names together plus two characters per separator. */
  lemma {:induction false} JoinLength(names: seq<string>)
    requires |names| >= 1
    ensures |Join(names)| == TotalLength(names) + 2 * (|names| - 1)
  {
    if |names| > 1 {
      JoinLength(names[..|names| - 1]);
    }
  }

  /** Every name occurs in the joined text at the offset given by the names before it
      and the separators between them. */
  lemma {:induction false} JoinPlacesName(names: seq<string>, k: nat)
    requires k < |names|
    ensures var off := TotalLength(names[..k]) + 2 * k;
            off + |names[k]| <= |Join(names)| &&
            Join(names)[off..off + |names[k]|] == names[k]
  {
    var n := |names|;
    if n == 1 {
      assert names[..0] == [];
    } else {
      var init := names[..n - 1];
      JoinLength(init);
      if k < n - 1 {
        JoinPlacesName(init, k);
        assert init[..k] == names[..k];
        var off := TotalLength(names[..k]) + 2 * k;
        assert Join(names) == Join(init) + ", " + names[n - 1];
        assert Join(names)[off..off + |names[k]|] == Join(init)[off..off + |names[k]|];
      } else {
        assert names[..k] == init;
        var off := TotalLength(init) + 2 * k;
        assert off == |Join(init)| + 2;
        assert Join(names) == Join(init) + ", " + names[n - 1];
        assert Join(names)[off..] == names[n - 1];
      }
    }
  }
}
