/** The checks `add_tie` makes before it ties parameters, the slots it
    ties, and what it does to the names of the parameters. */
module Ties {
  import opened Outcomes
  import opened Lists
  import opened Values

  /** `{name: par for name, par in zip(names, params)}`: the `parameters`
      dictionary; a later name replaces an earlier one. */
  function ZipToMap<V>(keys: seq<string>, vals: seq<V>): (d: map<string, V>)
    requires |keys| == |vals|
    ensures forall key :: key in d <==> key in keys
  {
    if |keys| == 0 then map[]
    else ZipToMap(keys[..|keys| - 1], vals[..|vals| - 1])[keys[|keys| - 1] := vals[|vals| - 1]]
  }

  /** With no name twice, the dictionary maps each name to the entry at
      its position. */
  lemma {:induction false} ZipToMapAt<V>(keys: seq<string>, vals: seq<V>, k: nat)
    requires |keys| == |vals| && Distinct(keys) && k < |keys|
    ensures ZipToMap(keys, vals)[keys[k]] == vals[k]
  {
    var n := |keys| - 1;
    if k < n {
      assert keys[k] != keys[n];
      ZipToMapAt(keys[..n], vals[..n], k);
    }
  }

  lemma ZipToMapAll<V>(keys: seq<string>, vals: seq<V>)
    requires |keys| == |vals|
    ensures Distinct(keys) ==> forall k :: 0 <= k < |keys| ==> ZipToMap(keys, vals)[keys[k]] == vals[k]
  {
    if Distinct(keys) {
      forall k | 0 <= k < |keys| ensures ZipToMap(keys, vals)[keys[k]] == vals[k] {
        ZipToMapAt(keys, vals, k);
      }
    }
  }

  /** Why `add_tie` refuses: a name that is not registered, a parameter
      unequal to the first one named, a new name that another parameter
      already has, or (for an empty list) the `IndexError` of `indices[0]`. */
  datatype TieError = NotPresent(name: string) | Unequal(name: string, first: string) | NameTaken(name: string) | NoIndices

  /** `par` passes both checks of the validation loop: it is registered,
      and its prior equals the first one named once names are set aside. */
  predicate Tieable(names: seq<string>, params: seq<Prior>, first: string, par: string)
    requires |names| == |params|
  {
    par in names && first in names &&
    EqualIgnoringName(ZipToMap(names, params)[par], ZipToMap(names, params)[first])
  }

  /** The validation loop of `add_tie` over `pars`, whose first name is
      `first`: the positions `self._parameter_names.index(par)`, or the
      first check that fails. */
  function ValidateTie(names: seq<string>, params: seq<Prior>, first: string, pars: seq<string>): (r: Result<seq<nat>, TieError>)
    requires |names| == |params|
    requires |pars| > 0 ==> pars[0] == first
    ensures r.Ok? <==> forall k :: 0 <= k < |pars| ==> Tieable(names, params, first, pars[k])
    ensures r.Ok? ==> |r.value| == |pars| && forall k :: 0 <= k < |pars| ==> r.value[k] == IndexOf(names, pars[k])
  {
    if |pars| == 0 then Ok([])
    else
      var n := |pars| - 1;
      var front := ValidateTie(names, params, first, pars[..n]);
      var par := pars[n];
      assert forall k :: 0 <= k < n ==> pars[..n][k] == pars[k];
      if front.Err? then front
      else if par !in names then Err(NotPresent(par))
      else if !EqualIgnoringName(ZipToMap(names, params)[par], ZipToMap(names, params)[first]) then Err(Unequal(par, first))
      else Ok(front.value + [IndexOf(names, par)])
  }

  /** The loop stops at the first name that fails a check, and says which
      check. */
  lemma {:induction false} ValidateTieError(names: seq<string>, params: seq<Prior>, first: string, pars: seq<string>)
    requires |names| == |params|
    requires |pars| > 0 ==> pars[0] == first
    requires ValidateTie(names, params, first, pars).Err?
    ensures exists k :: (0 <= k < |pars| && !Tieable(names, params, first, pars[k]) &&
      (forall j :: 0 <= j < k ==> Tieable(names, params, first, pars[j])) &&
      ValidateTie(names, params, first, pars).error ==
        (if pars[k] in names then Unequal(pars[k], first) else NotPresent(pars[k])))
  {
    var n := |pars| - 1;
    var front := ValidateTie(names, params, first, pars[..n]);
    assert forall k :: 0 <= k < n ==> pars[..n][k] == pars[k];
    if front.Err? {
      ValidateTieError(names, params, first, pars[..n]);
    } else {
      assert !Tieable(names, params, first, pars[n]);
    }
  }

  /** Once a prefix of the names fails a check, the whole list fails with
      the same error: the loop raises at the first failure. */
  lemma {:induction false} ValidateTiePrefix(names: seq<string>, params: seq<Prior>, first: string, pars: seq<string>, i: nat)
    requires |names| == |params| && |pars| > 0 && pars[0] == first && i <= |pars|
    requires ValidateTie(names, params, first, pars[..i]).Err?
    ensures ValidateTie(names, params, first, pars) == ValidateTie(names, params, first, pars[..i])
  {
    if i < |pars| {
      var n := |pars| - 1;
      assert pars[..n][..i] == pars[..i];
      ValidateTiePrefix(names, params, first, pars[..n], i);
    } else {
      assert pars[..i] == pars;
    }
  }

  /** The positions of distinct registered names are distinct. */
  lemma PositionsDistinct(names: seq<string>, toTie: seq<string>)
    requires forall k :: 0 <= k < |toTie| ==> toTie[k] in names
    requires Distinct(toTie)
    ensures Distinct(seq(|toTie|, k requires 0 <= k < |toTie| => IndexOf(names, toTie[k])))
  {
  }

  /** Sorting keeps every entry below a bound that each entry was below. */
  lemma SortedBelow(s: seq<nat>, n: nat)
    requires forall k :: 0 <= k < |s| ==> s[k] < n
    ensures forall k :: 0 <= k < |SortAscending(s)| ==> SortAscending(s)[k] < n
  {
    var r := SortAscending(s);
    forall k | 0 <= k < |r| ensures r[k] < n {
      assert r[k] in multiset(s);
    }
  }

  /** `indices.sort()` after the loop: the tied slots in ascending order. */
  function TieSlots(names: seq<string>, toTie: seq<string>): (slots: seq<nat>)
    requires forall k :: 0 <= k < |toTie| ==> toTie[k] in names
    requires Distinct(toTie)
    ensures |slots| == |toTie| && StrictlyIncreasing(slots)
    ensures forall k :: 0 <= k < |slots| ==> slots[k] < |names|
    ensures |slots| > 0 ==> slots[0] + |slots| <= |names|
  {
    var unsorted := seq(|toTie|, k requires 0 <= k < |toTie| => IndexOf(names, toTie[k]));
    PositionsDistinct(names, toTie);
    SortDistinct(unsorted);
    SortedBelow(unsorted, |names|);
    var slots := SortAscending(unsorted);
    assert |slots| == |multiset(slots)| == |multiset(unsorted)| == |toTie|;
    if |slots| > 0 then
      IncreasingFloor(slots, |slots| - 1);
      assert slots[|slots| - 1] < |names|;
      slots
    else slots
  }

  /** The tied slots are exactly the positions of the names to tie. */
  lemma TieSlotsAre(names: seq<string>, toTie: seq<string>)
    requires forall k :: 0 <= k < |toTie| ==> toTie[k] in names
    requires Distinct(toTie)
    ensures forall k :: 0 <= k < |toTie| ==> names[TieSlots(names, toTie)[k]] in toTie
    ensures forall t :: 0 <= t < |toTie| ==> IndexOf(names, toTie[t]) in TieSlots(names, toTie)
  {
    var unsorted := seq(|toTie|, k requires 0 <= k < |toTie| => IndexOf(names, toTie[k]));
    var slots := TieSlots(names, toTie);
    assert multiset(slots) == multiset(unsorted);
    forall k | 0 <= k < |toTie| ensures names[slots[k]] in toTie {
      assert slots[k] in multiset(unsorted);
      var t :| 0 <= t < |unsorted| && unsorted[t] == slots[k];
    }
    forall t | 0 <= t < |toTie| ensures IndexOf(names, toTie[t]) in slots {
      assert unsorted[t] in multiset(slots);
    }
  }

  /** `self._parameter_names[indices[0]] = new_name` when a new name is
      given. */
  function RenameSurvivor(names: seq<string>, slot: nat, newName: Option<string>): (r: seq<string>)
    requires slot < |names|
    ensures |r| == |names| && forall k :: 0 <= k < |names| && k != slot ==> r[k] == names[k]
    ensures r[slot] == if newName.Some? then newName.value else names[slot]
  {
    if newName.Some? then names[slot := newName.value] else names
  }

  /** Deleting the tied names but the first keeps the names distinct, and so
      does renaming the survivor to a name no other survivor has. */
  lemma RenameKeepsDistinct(names: seq<string>, slots: seq<nat>, newName: Option<string>)
    requires Distinct(names) && StrictlyIncreasing(slots) && |slots| > 0
    requires slots[|slots| - 1] < |names|
    requires newName.Some? && newName.value in names ==>
      exists t :: 0 <= t < |slots| && names[slots[t]] == newName.value
    ensures slots[0] < |DeleteDescending(names, slots[1..])|
    ensures Distinct(RenameSurvivor(DeleteDescending(names, slots[1..]), slots[0], newName))
  {
    var drop := slots[1..];
    var d := DeleteDescending(names, drop);
    DeleteDescendingFirst(names, slots);
    DeleteDescendingDistinct(names, drop);
    assert slots[0] !in drop;
    CountBelowNone(drop, slots[0]);
    DeleteDescendingAt(names, drop, slots[0]);
    assert d[slots[0]] == names[slots[0]];
    if newName.Some? {
      var r := RenameSurvivor(d, slots[0], newName);
      forall p | 0 <= p < |d| && p != slots[0] ensures d[p] != newName.value {
        DeleteDescendingFrom(names, drop, p);
        var i :| 0 <= i < |names| && i !in drop && names[i] == d[p];
      }
      assert Distinct(r) by {
        forall i, j | 0 <= i < j < |r| ensures r[i] != r[j] {
          if i != slots[0] && j != slots[0] {
            assert r[i] == d[i] && r[j] == d[j];
          }
        }
      }
    }
  }

  /** The names `add_tie` leaves as the program is written: after the checks
      of the validation loop, it deletes the tied names but the first and
      renames that one, whether or not another parameter already has the
      new name. Only the names are tracked: with no names to tie and no new
      name, `add_tie` still renumbers the maps, which raises `IndexError`
      when a map holds a placeholder; `InferenceModel.Model.AddTie` models
      that outcome. */
  function TiedNamesAsWritten(names: seq<string>, params: seq<Prior>, toTie: seq<string>, newName: Option<string>): (r: Result<seq<string>, TieError>)
    requires |names| == |params| && Distinct(toTie)
    ensures r.Ok? ==> |r.value| == |names| - (if |toTie| == 0 then 0 else |toTie| - 1)
    ensures r.Ok? && |toTie| > 0 && newName.Some? ==> newName.value in r.value
  {
    if |toTie| == 0 then (if newName.Some? then Err(NoIndices) else Ok(names))
    else
      var checked := ValidateTie(names, params, toTie[0], toTie);
      if checked.Err? then Err(checked.error)
      else
        var slots := TieSlots(names, toTie);
        Ok(RenameSurvivor(DeleteDescending(names, slots[1..]), slots[0], newName))
  }

  /** Both names pass the checks; they sit at positions 0 and 1. */
  lemma ClashValidates(p: Prior, q: Prior, s: Prior)
    requires EqualIgnoringName(p, q)
    ensures ValidateTie(["a", "b", "c"], [p, q, s], "a", ["a", "b"]) == Ok([0, 1])
  {
    var names, params := ["a", "b", "c"], [p, q, s];
    assert Distinct(names);
    ZipToMapAt(names, params, 0);
    ZipToMapAt(names, params, 1);
    assert IndexOf(names, "a") == 0;
    assert IndexOf(names, "b") == 1;
    assert Tieable(names, params, "a", "a") && Tieable(names, params, "a", "b");
    var checked := ValidateTie(names, params, "a", ["a", "b"]);
    assert checked.Ok? && checked.value[0] == 0 && checked.value[1] == 1;
    assert |checked.value| == 2;
    assert checked.value == [0, 1];
  }

  lemma ClashSlots(names: seq<string>)
    requires names == ["a", "b", "c"]
    ensures TieSlots(names, ["a", "b"]) == [0, 1]
  {
    assert IndexOf(names, "a") == 0;
    assert IndexOf(names, "b") == 1;
    var unsorted := seq(2, k requires 0 <= k < 2 => IndexOf(names, ["a", "b"][k]));
    assert unsorted == [0, 1];
    assert SortAscending([1]) == [1];
    assert SortAscending([0, 1]) == [0, 1];
  }

  lemma ClashRename()
    ensures RenameSurvivor(DeleteDescending(["a", "b", "c"], [1]), 0, Some("c")) == ["c", "c"]
  {
    assert DeleteDescending(["a", "b", "c"], [1]) == ["a", "c"];
  }

  /** Tying `a` and `b` under the new name `c` while a third parameter is
      already called `c` leaves two parameters called `c`. */
  lemma TieNameClash(names: seq<string>, toTie: seq<string>, p: Prior, q: Prior, s: Prior)
    requires names == ["a", "b", "c"] && toTie == ["a", "b"]
    requires EqualIgnoringName(p, q)
    ensures Distinct(names) && Distinct(toTie)
    ensures TiedNamesAsWritten(names, [p, q, s], toTie, Some("c")) == Ok(["c", "c"])
    ensures !Distinct(["c", "c"])
  {
    assert Distinct(names) && Distinct(toTie);
    ClashValidates(p, q, s);
    ClashSlots(names);
    var slots := TieSlots(names, ["a", "b"]);
    var r := TiedNamesAsWritten(names, [p, q, s], ["a", "b"], Some("c"));
    assert r.Ok?;
    assert r.value == RenameSurvivor(DeleteDescending(names, slots[1..]), slots[0], Some("c"));
    assert slots[1..] == [1] && slots[0] == 0;
    ClashRename();
    assert r.value == ["c", "c"];
    assert r == Ok(["c", "c"]);
    assert ["c", "c"][0] == ["c", "c"][1];
  }
}
