/** Choice of the reply formatter from the request's accept entries
    (dll/Jhu.Graywulf.Web/Web/Api/DynamicResponseMessageFormatter.cs).
    The accept-header parser and the mime pattern match `IsMatching` are not
    part of this model: accepted entries are values of an opaque type `A` and
    the match is the predicate parameter `isMatching`. */
module ResponseFormatting {
  import opened Wrappers

  /** The formatter map, keyed by the case-folded mime string: `entries`
      maps `fold(key)` to the key as given and its formatter. */
  datatype FormatterMap<F> = FormatterMap(entries: map<string, (string, F)>)

  /** The constructor copies the given dictionary into one whose key comparer
      ignores case: two keys that fold to the same string make it fail, as
      `Dictionary.Add` does on a duplicate key. */
  function NewFormatterMap<F>(given: seq<(string, F)>, fold: string -> string): (r: Result<FormatterMap<F>, string>)
    ensures r.Ok? ==> forall k :: k in r.value.entries ==> fold(r.value.entries[k].0) == k
    ensures r.Ok? ==> |r.value.entries| == |given|
    decreases |given|
  {
    if |given| == 0 then Ok(FormatterMap(map[]))
    else
      var last := given[|given| - 1];
      match NewFormatterMap(given[..|given| - 1], fold)
      case Err(e) => Err(e)
      case Ok(m) =>
        if fold(last.0) in m.entries then Err("An item with the same key has already been added.")
        else Ok(FormatterMap(m.entries[fold(last.0) := last]))
  }

  /** The given keys, folded. */
  ghost function FoldedKeys<F>(given: seq<(string, F)>, fold: string -> string): set<string>
  {
    set i | 0 <= i < |given| :: fold(given[i].0)
  }

  lemma FoldedKeysSnoc<F>(given: seq<(string, F)>, fold: string -> string)
    requires |given| > 0
    ensures FoldedKeys(given, fold) == FoldedKeys(given[..|given| - 1], fold) + {fold(given[|given| - 1].0)}
  {
    var n := |given| - 1;
    var init := given[..n];
    forall x | x in FoldedKeys(given, fold) ensures x in FoldedKeys(init, fold) + {fold(given[n].0)} {
      var i :| 0 <= i < |given| && fold(given[i].0) == x;
      if i < n {
        assert fold(init[i].0) == x;
      }
    }
    forall x | x in FoldedKeys(init, fold) ensures x in FoldedKeys(given, fold) {
      var i :| 0 <= i < n && fold(init[i].0) == x;
      assert fold(given[i].0) == x;
    }
  }

  /** A successful copy is keyed by exactly the folded given keys. */
  lemma {:induction false} NewFormatterMapKeys<F>(given: seq<(string, F)>, fold: string -> string)
    ensures NewFormatterMap(given, fold).Ok? ==> NewFormatterMap(given, fold).value.entries.Keys == FoldedKeys(given, fold)
    decreases |given|
  {
    if |given| > 0 {
      NewFormatterMapKeys(given[..|given| - 1], fold);
      FoldedKeysSnoc(given, fold);
    }
  }

  /** No two given keys fold alike. */
  predicate DistinctFolds<F>(given: seq<(string, F)>, fold: string -> string)
  {
    forall i, j :: 0 <= i < j < |given| ==> fold(given[i].0) != fold(given[j].0)
  }

  lemma DistinctFoldsSnoc<F>(given: seq<(string, F)>, fold: string -> string)
    requires |given| > 0
    ensures DistinctFolds(given, fold) <==>
            DistinctFolds(given[..|given| - 1], fold) && fold(given[|given| - 1].0) !in FoldedKeys(given[..|given| - 1], fold)
  {
    var n := |given| - 1;
    var init := given[..n];
    assert forall i :: 0 <= i < n ==> init[i] == given[i];
    if fold(given[n].0) in FoldedKeys(init, fold) {
      var i :| 0 <= i < n && fold(init[i].0) == fold(given[n].0);
      assert fold(given[i].0) == fold(given[n].0);
    }
    if !DistinctFolds(init, fold) {
      var i, j :| 0 <= i < j < n && fold(init[i].0) == fold(init[j].0);
      assert fold(given[i].0) == fold(given[j].0);
    }
    if DistinctFolds(init, fold) && fold(given[n].0) !in FoldedKeys(init, fold) {
      forall i, j | 0 <= i < j < |given| ensures fold(given[i].0) != fold(given[j].0) {
        if j < n {
          assert fold(init[i].0) != fold(init[j].0);
        } else {
          assert fold(init[i].0) in FoldedKeys(init, fold);
        }
      }
    }
  }

  /** The copy succeeds exactly when no two given keys fold alike. */
  lemma {:induction false} NewFormatterMapRejectsDuplicates<F>(given: seq<(string, F)>, fold: string -> string)
    ensures NewFormatterMap(given, fold).Ok? <==>
      forall i, j :: 0 <= i < j < |given| ==> fold(given[i].0) != fold(given[j].0)
    decreases |given|
  {
    if |given| > 0 {
      var init := given[..|given| - 1];
      NewFormatterMapRejectsDuplicates(init, fold);
      NewFormatterMapKeys(init, fold);
      DistinctFoldsSnoc(given, fold);
    }
    assert NewFormatterMap(given, fold).Ok? <==> DistinctFolds(given, fold);
  }

  /** A successful copy holds every given key, folded, with its own entry. */
  lemma {:induction false} NewFormatterMapEntries<F>(given: seq<(string, F)>, fold: string -> string)
    ensures NewFormatterMap(given, fold).Ok? ==>
      forall i :: 0 <= i < |given| ==>
        fold(given[i].0) in NewFormatterMap(given, fold).value.entries &&
        NewFormatterMap(given, fold).value.entries[fold(given[i].0)] == given[i]
    decreases |given|
  {
    if |given| > 0 {
      var n := |given| - 1;
      var init := given[..n];
      NewFormatterMapEntries(init, fold);
      NewFormatterMapKeys(init, fold);
      assert forall i :: 0 <= i < n ==> init[i] == given[i];
      if NewFormatterMap(given, fold).Ok? {
        var m := NewFormatterMap(init, fold).value;
        forall i | 0 <= i < n ensures fold(given[i].0) != fold(given[n].0) {
          assert fold(init[i].0) in FoldedKeys(init, fold);
        }
      }
    }
  }

  /** Looking a formatter up ignores case. */
  function Lookup<F>(m: FormatterMap<F>, key: string, fold: string -> string): Option<F>
  {
    if fold(key) in m.entries then Some(m.entries[fold(key)].1) else None
  }

  lemma LookupIgnoresCase<F>(m: FormatterMap<F>, k1: string, k2: string, fold: string -> string)
    requires fold(k1) == fold(k2)
    ensures Lookup(m, k1, fold) == Lookup(m, k2, fold)
  {
  }

  /** `keys` is the key collection of the case-insensitive dictionary `m` in
      its enumeration order: each key as it was given, each entry once. */
  predicate EnumeratesKeys<F>(m: FormatterMap<F>, keys: seq<string>, fold: string -> string)
  {
    (forall i :: 0 <= i < |keys| ==> fold(keys[i]) in m.entries && m.entries[fold(keys[i])].0 == keys[i]) &&
    (forall i, j :: 0 <= i < j < |keys| ==> fold(keys[i]) != fold(keys[j])) &&
    (forall k :: k in m.entries ==> exists i :: 0 <= i < |keys| && fold(keys[i]) == k)
  }

  /** The keys of a copied dictionary are the given keys: each enumerated key
      is given with the formatter looked up under it, and each given key is
      enumerated. */
  lemma EnumeratedKeysAreGiven<F>(given: seq<(string, F)>, m: FormatterMap<F>, keys: seq<string>, fold: string -> string)
    requires NewFormatterMap(given, fold) == Ok(m) && EnumeratesKeys(m, keys, fold)
    ensures forall i :: 0 <= i < |keys| ==>
              (keys[i], Lookup(m, keys[i], fold).value) in given
    ensures forall j :: 0 <= j < |given| ==> given[j].0 in keys
  {
    EnumeratedKeysStored(given, m, keys, fold);
    forall j | 0 <= j < |given| ensures given[j].0 in keys {
      GivenKeyIsEnumerated(given, m, keys, fold, j);
    }
  }

  /** Every enumerated key is stored as itself. */
  lemma KeysAreStored<F>(m: FormatterMap<F>, keys: seq<string>, fold: string -> string)
    requires EnumeratesKeys(m, keys, fold)
    ensures forall k :: k in keys ==> fold(k) in m.entries
  {
    forall k | k in keys ensures fold(k) in m.entries {
      var i :| 0 <= i < |keys| && keys[i] == k;
    }
  }

  lemma EnumeratedKeysStored<F>(given: seq<(string, F)>, m: FormatterMap<F>, keys: seq<string>, fold: string -> string)
    requires NewFormatterMap(given, fold) == Ok(m) && EnumeratesKeys(m, keys, fold)
    ensures forall i :: 0 <= i < |keys| ==>
              (keys[i], Lookup(m, keys[i], fold).value) in given
  {
    forall i | 0 <= i < |keys|
      ensures (keys[i], Lookup(m, keys[i], fold).value) in given
    {
      KeyIsGiven(given, m, keys[i], fold);
    }
  }

  /** A given key of a copied dictionary is among its enumerated keys. */
  lemma GivenKeyIsEnumerated<F>(given: seq<(string, F)>, m: FormatterMap<F>, keys: seq<string>, fold: string -> string, j: nat)
    requires NewFormatterMap(given, fold) == Ok(m) && EnumeratesKeys(m, keys, fold) && j < |given|
    ensures given[j].0 in keys
  {
    NewFormatterMapEntries(given, fold);
    var k := fold(given[j].0);
    assert k in m.entries && m.entries[k] == given[j];
    var i :| 0 <= i < |keys| && fold(keys[i]) == k;
    assert keys[i] == m.entries[k].0;
  }

  /** A key stored as itself in a copied dictionary is a given key, with the
      formatter given for it. */
  lemma KeyIsGiven<F>(given: seq<(string, F)>, m: FormatterMap<F>, key: string, fold: string -> string)
    requires NewFormatterMap(given, fold) == Ok(m)
    requires fold(key) in m.entries && m.entries[fold(key)].0 == key
    ensures (key, Lookup(m, key, fold).value) in given
  {
    NewFormatterMapKeys(given, fold);
    NewFormatterMapEntries(given, fold);
    var k := fold(key);
    assert k in FoldedKeys(given, fold);
    var j :| 0 <= j < |given| && fold(given[j].0) == k;
    assert m.entries[k] == given[j];
  }

  /** The formatter of the first key, in the dictionary's key order, that
      accepted entry `a` matches: the inner `foreach` with its `break`; the
      dictionary is indexed ignoring case. */
  function FirstMatch<A, F>(a: A, keys: seq<string>, m: FormatterMap<F>, fold: string -> string,
                            isMatching: (A, string) -> bool): (r: Option<F>)
    requires forall k :: k in keys ==> fold(k) in m.entries
    ensures r.None? <==> forall k :: k in keys ==> !isMatching(a, k)
    ensures r.Some? ==> exists j :: 0 <= j < |keys| && isMatching(a, keys[j]) &&
                          r == Lookup(m, keys[j], fold) &&
                          forall j' :: 0 <= j' < j ==> !isMatching(a, keys[j'])
  {
    if |keys| == 0 then None
    else if isMatching(a, keys[0]) then Lookup(m, keys[0], fold)
    else
      var r := FirstMatch(a, keys[1..], m, fold, isMatching);
      if r.Some? then
        FirstMatchShift(a, keys, m, fold, isMatching, r);
        r
      else
      r
  }

  lemma FirstMatchShift<A, F>(a: A, keys: seq<string>, m: FormatterMap<F>, fold: string -> string,
                              isMatching: (A, string) -> bool, f: Option<F>)
    requires |keys| > 0 && !isMatching(a, keys[0])
    requires exists j :: 0 <= j < |keys[1..]| && isMatching(a, keys[1..][j]) &&
               f == Lookup(m, keys[1..][j], fold) &&
               forall j' :: 0 <= j' < j ==> !isMatching(a, keys[1..][j'])
    ensures exists j :: 0 <= j < |keys| && isMatching(a, keys[j]) &&
              f == Lookup(m, keys[j], fold) &&
              forall j' :: 0 <= j' < j ==> !isMatching(a, keys[j'])
  {
    var j :| 0 <= j < |keys[1..]| && isMatching(a, keys[1..][j]) &&
             f == Lookup(m, keys[1..][j], fold) &&
             forall j' :: 0 <= j' < j ==> !isMatching(a, keys[1..][j']);
    assert isMatching(a, keys[j + 1]);
    forall j' | 0 <= j' < j + 1 ensures !isMatching(a, keys[j']) {
      if j' > 0 { assert keys[j'] == keys[1..][j' - 1]; }
    }
  }

  /** The formatter chosen after the outer loop has seen `accepted`: the
      match of the LAST accepted entry that matches any key (the `break`
      leaves only the inner loop), or none. */
  function Chosen<A, F>(accepted: seq<A>, keys: seq<string>, m: FormatterMap<F>, fold: string -> string,
                        isMatching: (A, string) -> bool): Option<F>
    requires forall k :: k in keys ==> fold(k) in m.entries
  {
    if |accepted| == 0 then None
    else
      var r := FirstMatch(accepted[|accepted| - 1], keys, m, fold, isMatching);
      if r.Some? then r else Chosen(accepted[..|accepted| - 1], keys, m, fold, isMatching)
  }

  /** The formatter selection of `SerializeReply` over the dictionary `m`,
      whose key collection is `keys`. */
  method SelectFormatter<A, F>(accepted: seq<A>, keys: seq<string>, m: FormatterMap<F>, fold: string -> string,
                               fallback: F, isMatching: (A, string) -> bool) returns (formatter: F)
    requires EnumeratesKeys(m, keys, fold)
    ensures Chosen(accepted, keys, m, fold, isMatching).None? ==> formatter == fallback
    ensures Chosen(accepted, keys, m, fold, isMatching).Some? ==>
              formatter == Chosen(accepted, keys, m, fold, isMatching).value
  {
    var chosen: Option<F> := None;
    KeysAreStored(m, keys, fold);
    for i := 0 to |accepted|
      invariant chosen == Chosen(accepted[..i], keys, m, fold, isMatching)
    {
      assert accepted[..i + 1][..i] == accepted[..i] && accepted[..i + 1][i] == accepted[i];
      var j := 0;
      while j < |keys|
        invariant 0 <= j <= |keys|
        invariant forall j' :: 0 <= j' < j ==> !isMatching(accepted[i], keys[j'])
        invariant chosen == Chosen(accepted[..i], keys, m, fold, isMatching)
      {
        if isMatching(accepted[i], keys[j]) {
          FirstMatchAt(accepted[i], keys, m, fold, isMatching, j);
          chosen := Some(m.entries[fold(keys[j])].1);
          break;
        }
        j := j + 1;
      }
      if j == |keys| {
        FirstMatchAt(accepted[i], keys, m, fold, isMatching, j);
      }
    }
    assert accepted[..|accepted|] == accepted;
    if chosen.None? {
      formatter := fallback;
    } else {
      formatter := chosen.value;
    }
  }

  /** The inner loop stops at the first matching key, and finds nothing when
      it runs past the last key. */
  lemma FirstMatchAt<A, F>(a: A, keys: seq<string>, m: FormatterMap<F>, fold: string -> string,
                           isMatching: (A, string) -> bool, j: nat)
    requires forall k :: k in keys ==> fold(k) in m.entries
    requires j <= |keys| && forall j' :: 0 <= j' < j ==> !isMatching(a, keys[j'])
    ensures j < |keys| && isMatching(a, keys[j]) ==> FirstMatch(a, keys, m, fold, isMatching) == Lookup(m, keys[j], fold)
    ensures j == |keys| ==> FirstMatch(a, keys, m, fold, isMatching).None?
  {
    var r := FirstMatch(a, keys, m, fold, isMatching);
    if j < |keys| && isMatching(a, keys[j]) {
      assert keys[j] in keys;
      var j0 :| 0 <= j0 < |keys| && isMatching(a, keys[j0]) && r == Lookup(m, keys[j0], fold) &&
                forall j' :: 0 <= j' < j0 ==> !isMatching(a, keys[j']);
      assert j0 == j;
    }
    if j == |keys| {
      forall k | k in keys ensures !isMatching(a, k) {
        var x :| 0 <= x < |keys| && keys[x] == k;
      }
    }
  }

  /** With no accepted entry matching any of the given keys, the fallback
      formatter is used. */
  lemma {:induction false} NoMatchMeansNone<A, F>(accepted: seq<A>, given: seq<(string, F)>, m: FormatterMap<F>,
                                                  keys: seq<string>, fold: string -> string,
                                                  isMatching: (A, string) -> bool)
    requires NewFormatterMap(given, fold) == Ok(m) && EnumeratesKeys(m, keys, fold)
    requires forall i, j :: 0 <= i < |accepted| && 0 <= j < |given| ==> !isMatching(accepted[i], given[j].0)
    ensures Chosen(accepted, keys, m, fold, isMatching).None?
  {
    EnumeratedKeysAreGiven(given, m, keys, fold);
    forall i, k | 0 <= i < |accepted| && k in keys ensures !isMatching(accepted[i], k) {
      var i' :| 0 <= i' < |keys| && keys[i'] == k;
      assert (keys[i'], Lookup(m, keys[i'], fold).value) in given;
      var j :| 0 <= j < |given| && given[j] == (keys[i'], Lookup(m, keys[i'], fold).value);
    }
    NoKeyMatchMeansNone(accepted, keys, m, fold, isMatching);
  }

  lemma {:induction false} NoKeyMatchMeansNone<A, F>(accepted: seq<A>, keys: seq<string>, m: FormatterMap<F>,
                                                     fold: string -> string, isMatching: (A, string) -> bool)
    requires forall k :: k in keys ==> fold(k) in m.entries
    requires forall i, k :: 0 <= i < |accepted| && k in keys ==> !isMatching(accepted[i], k)
    ensures Chosen(accepted, keys, m, fold, isMatching).None?
  {
    if |accepted| > 0 {
      NoKeyMatchMeansNone(accepted[..|accepted| - 1], keys, m, fold, isMatching);
    }
  }

  /** A chosen formatter is one of the given formatters, given under a key
      that some accepted entry matches, and no later accepted entry matches
      any key. */
  lemma ChosenIsGivenFormatter<A, F>(accepted: seq<A>, given: seq<(string, F)>, m: FormatterMap<F>,
                                     keys: seq<string>, fold: string -> string, isMatching: (A, string) -> bool)
    requires NewFormatterMap(given, fold) == Ok(m) && EnumeratesKeys(m, keys, fold)
    requires Chosen(accepted, keys, m, fold, isMatching).Some?
    ensures exists i, j :: 0 <= i < |accepted| && 0 <= j < |given| &&
              isMatching(accepted[i], given[j].0) &&
              Chosen(accepted, keys, m, fold, isMatching).value == given[j].1 &&
              forall i', k :: i < i' < |accepted| && k in keys ==> !isMatching(accepted[i'], k)
  {
    KeysAreStored(m, keys, fold);
    var i, jk := LastMatchingIndex(accepted, keys, m, fold, isMatching);
    var j := GivenIndex(given, m, keys, fold, jk);
    assert isMatching(accepted[i], given[j].0);
  }

  /** The accepted entry and the key behind a chosen formatter. */
  lemma LastMatchingIndex<A, F>(accepted: seq<A>, keys: seq<string>, m: FormatterMap<F>,
                                fold: string -> string, isMatching: (A, string) -> bool)
    returns (i: nat, jk: nat)
    requires forall k :: k in keys ==> fold(k) in m.entries
    requires Chosen(accepted, keys, m, fold, isMatching).Some?
    ensures i < |accepted| && jk < |keys| && isMatching(accepted[i], keys[jk]) &&
            Chosen(accepted, keys, m, fold, isMatching) == Lookup(m, keys[jk], fold) &&
            forall i', k :: i < i' < |accepted| && k in keys ==> !isMatching(accepted[i'], k)
  {
    ChosenIsLastMatching(accepted, keys, m, fold, isMatching);
    i, jk :| 0 <= i < |accepted| && 0 <= jk < |keys| &&
             isMatching(accepted[i], keys[jk]) &&
             Chosen(accepted, keys, m, fold, isMatching) == Lookup(m, keys[jk], fold) &&
             forall i', k :: i < i' < |accepted| && k in keys ==> !isMatching(accepted[i'], k);
  }

  /** Where an enumerated key sits among the given entries. */
  lemma GivenIndex<F>(given: seq<(string, F)>, m: FormatterMap<F>, keys: seq<string>, fold: string -> string, jk: nat)
    returns (j: nat)
    requires NewFormatterMap(given, fold) == Ok(m) && EnumeratesKeys(m, keys, fold) && jk < |keys|
    ensures j < |given| && fold(keys[jk]) in m.entries && given[j] == (keys[jk], m.entries[fold(keys[jk])].1)
  {
    KeyIsGiven(given, m, keys[jk], fold);
    var x := (keys[jk], Lookup(m, keys[jk], fold).value);
    assert x in given;
    j :| 0 <= j < |given| && given[j] == x;
  }

  /** A chosen formatter is looked up under a key that some accepted entry
      matches, and no later accepted entry matches any key. */
  lemma {:induction false} ChosenIsLastMatching<A, F>(accepted: seq<A>, keys: seq<string>, m: FormatterMap<F>,
                                                      fold: string -> string, isMatching: (A, string) -> bool)
    requires forall k :: k in keys ==> fold(k) in m.entries
    requires Chosen(accepted, keys, m, fold, isMatching).Some?
    ensures exists i, j :: 0 <= i < |accepted| && 0 <= j < |keys| &&
              isMatching(accepted[i], keys[j]) &&
              Chosen(accepted, keys, m, fold, isMatching) == Lookup(m, keys[j], fold) &&
              forall i', k :: i < i' < |accepted| && k in keys ==> !isMatching(accepted[i'], k)
  {
    var n := |accepted|;
    var r := FirstMatch(accepted[n - 1], keys, m, fold, isMatching);
    if r.Some? {
      var j :| 0 <= j < |keys| && isMatching(accepted[n - 1], keys[j]) && r == Lookup(m, keys[j], fold) &&
               forall j' :: 0 <= j' < j ==> !isMatching(accepted[n - 1], keys[j']);
      assert isMatching(accepted[n - 1], keys[j]);
    } else {
      var init := accepted[..n - 1];
      ChosenIsLastMatching(init, keys, m, fold, isMatching);
      var i, j :| 0 <= i < |init| && 0 <= j < |keys| && isMatching(init[i], keys[j]) &&
                  Chosen(init, keys, m, fold, isMatching) == Lookup(m, keys[j], fold) &&
                  forall i', k :: i < i' < |init| && k in keys ==> !isMatching(init[i'], k);
      assert accepted[i] == init[i];
      forall i', k | i < i' < n && k in keys ensures !isMatching(accepted[i'], k) {
        if i' < n - 1 { assert accepted[i'] == init[i']; }
      }
    }
  }

  /** A match at a later accepted entry overrides whatever earlier entries matched. */
  lemma LaterMatchOverrides<A, F>(accepted: seq<A>, a: A, keys: seq<string>, m: FormatterMap<F>,
                                  fold: string -> string, isMatching: (A, string) -> bool)
    requires forall k :: k in keys ==> fold(k) in m.entries
    requires exists k :: k in keys && isMatching(a, k)
    ensures Chosen(accepted + [a], keys, m, fold, isMatching) == FirstMatch(a, keys, m, fold, isMatching)
  {
    assert (accepted + [a])[|accepted|] == a;
  }

  /** The formatter used to read requests: always the fallback. */
  function RequestFormatter<F>(fallback: F, formatters: FormatterMap<F>): (r: F)
    ensures r == fallback
  {
    fallback
  }
}
