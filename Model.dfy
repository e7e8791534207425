/** The model object: a registry of free parameters kept as two parallel
    lists (the priors and their unique names), and the maps that rebuild
    the scatterer's parameters and the optics from one value per
    registered parameter. Building a model walks the configuration,
    registers each prior it meets and leaves a placeholder in its place;
    tying parameters afterwards shrinks the registry and renumbers the
    placeholders of every map. */
module InferenceModel {
  import opened Outcomes
  import opened Lists
  import opened PyStrings
  import opened Values
  import opened Maps
  import opened ReadBack
  import opened Naming
  import opened Ties
  import opened Registry

  /** The keys of the optics dictionary, in the order the model maps them. */
  const OpticsKeys: seq<string> := ["medium_index", "illum_wavelen", "illum_polarization", "noise_sd"]

  /** `{key: val for key, val in zip(OPTICS_KEYS, optics)}` */
  function Optics(mediumIndex: Value, illumWavelen: Value, illumPolarization: Value, noiseSd: Value): (v: Value)
    requires WellFormed(mediumIndex) && WellFormed(illumWavelen) && WellFormed(illumPolarization) && WellFormed(noiseSd)
    ensures WellFormed(v) && v.Dictionary? && v.keys == OpticsKeys
    ensures v.values == [mediumIndex, illumWavelen, illumPolarization, noiseSd]
  {
    var values := [mediumIndex, illumWavelen, illumPolarization, noiseSd];
    assert Distinct(OpticsKeys);
    assert forall k :: 0 <= k < |values| ==> WellFormed(values[k]);
    Dictionary(OpticsKeys, values)
  }

  /** Parameter values handed to `scatterer_from_parameters`: a list in
      registry order, or a dictionary keyed by parameter name. */
  datatype ParameterValues = ByPosition(values: seq<Value>) | ByName(named: map<string, Value>)

  /** `[named[name] for name in keys]`, or the first name missing from
      `named` (the `KeyError` the comprehension raises). */
  function LookupAll(keys: seq<string>, named: map<string, Value>): (r: Result<seq<Value>, string>)
    ensures r.Ok? <==> forall k :: 0 <= k < |keys| ==> keys[k] in named
    ensures r.Ok? ==> |r.value| == |keys| && forall k :: 0 <= k < |keys| ==> r.value[k] == named[keys[k]]
    ensures r.Err? ==> exists k :: (0 <= k < |keys| && keys[k] == r.error && keys[k] !in named &&
      forall j :: 0 <= j < k ==> keys[j] in named)
  {
    if |keys| == 0 then Ok([])
    else
      var n := |keys| - 1;
      var front := LookupAll(keys[..n], named);
      assert forall k :: 0 <= k < n ==> keys[..n][k] == keys[k];
      if front.Err? then front
      else if keys[n] !in named then Err(keys[n])
      else Ok(front.value + [named[keys[n]]])
  }

  /** A map of `v` against the registered priors stays one when the
      registry grows at the end. */
  lemma Grown(m: Map, v: Value, before: seq<Prior>, after: seq<Prior>)
    requires ParamsBelow(m, |before|) && MapsBack(m, v, PriorValues(before))
    requires |before| <= |after| && after[..|before|] == before
    ensures ParamsBelow(m, |after|) && MapsBack(m, v, PriorValues(after))
  {
    assert PriorValues(before) == PriorValues(after)[..|before|];
    MapsBackExtend(m, v, PriorValues(before), PriorValues(after));
  }

  /** The first `|ms|` values have their maps in `ms`. */
  ghost predicate MapsBackPrefix(ms: seq<Map>, values: seq<Value>, ps: seq<Prior>) {
    |ms| <= |values| &&
    forall k :: 0 <= k < |ms| ==> ParamsBelow(ms[k], |ps|) && MapsBack(ms[k], values[k], PriorValues(ps))
  }

  /** One loop step of `_iterate_mapping`: the maps built so far survive the
      registry's growth, and the new map joins them. */
  lemma MapsBackPrefixStep(ms: seq<Map>, m: Map, values: seq<Value>, before: seq<Prior>, after: seq<Prior>)
    requires MapsBackPrefix(ms, values, before) && |ms| < |values|
    requires |before| <= |after| && after[..|before|] == before
    requires ParamsBelow(m, |after|) && MapsBack(m, values[|ms|], PriorValues(after))
    ensures MapsBackPrefix(ms + [m], values, after)
  {
    forall k | 0 <= k < |ms|
      ensures ParamsBelow(ms[k], |after|) && MapsBack(ms[k], values[k], PriorValues(after))
    {
      Grown(ms[k], values[k], before, after);
    }
  }

  /** The entries of a dictionary's map use only the slots its values'
      maps use. */
  lemma EntriesBelow(keys: seq<string>, ms: seq<Map>, n: nat)
    requires |keys| == |ms| && forall k :: 0 <= k < |ms| ==> ParamsBelow(ms[k], n)
    ensures ParamsBelow(Apply(MakeDict, [List(Entries(keys, ms))]), n)
  {
    var es := Entries(keys, ms);
    forall j | 0 <= j < |es| ensures ParamsBelow(es[j], n) {
      var k :| 0 <= k < |ms| && ms[k] != Const(NoneValue) && es[j] == List([Const(Text(keys[k])), ms[k]]);
      assert [Const(Text(keys[k])), ms[k]][1] == ms[k];
    }
  }

  /** The renamed survivor clashes with no other name: the new name is
      either no registered name at all or one of the tied ones. */
  lemma RenameKeepsNames(names: seq<string>, toTie: seq<string>, slots: seq<nat>, newName: Option<string>)
    requires Distinct(names) && Distinct(toTie) && |toTie| > 0
    requires forall k :: 0 <= k < |toTie| ==> toTie[k] in names
    requires slots == TieSlots(names, toTie)
    requires newName.Some? && newName.value in names ==> newName.value in toTie
    ensures slots[0] < |DeleteDescending(names, slots[1..])|
    ensures Distinct(RenameSurvivor(DeleteDescending(names, slots[1..]), slots[0], newName))
  {
    TieSlotsAre(names, toTie);
    if newName.Some? && newName.value in names {
      var t :| 0 <= t < |toTie| && toTie[t] == newName.value;
      var slot := IndexOf(names, toTie[t]);
      var u :| 0 <= u < |slots| && slots[u] == slot;
    }
    RenameKeepsDistinct(names, slots, newName);
  }

  class Model {
    /** `self._parameters`: the registered priors, one per slot. */
    var parameters: seq<Prior>
    /** `self._parameter_names`: the name of the prior in each slot. */
    var names: seq<string>
    /** `self._maps`: one map per part of the model (`scatterer`, `optics`). */
    var maps: map<string, Map>

    /** The registry's invariant: one name per prior, no prior registered
        twice, no name given twice, and every placeholder of every map
        names a registered slot. */
    ghost predicate Valid()
      reads this
    {
      |names| == |parameters| && Distinct(parameters) && Distinct(names) &&
      forall key :: key in maps ==> ParamsBelow(maps[key], |parameters|)
    }

    /** `Model(scatterer, noise_sd, medium_index, illum_wavelen,
        illum_polarization)`: `scatterer` stands for
        `scatterer.parameters`. Both maps read back their configuration
        against the registered priors. */
    constructor (scatterer: Value, mediumIndex: Value, illumWavelen: Value, illumPolarization: Value, noiseSd: Value)
      requires WellFormed(scatterer)
      requires WellFormed(mediumIndex) && WellFormed(illumWavelen) && WellFormed(illumPolarization) && WellFormed(noiseSd)
      ensures Valid()
      ensures maps.Keys == {"scatterer", "optics"}
      ensures MapsBack(maps["scatterer"], scatterer, PriorValues(parameters))
      ensures MapsBack(maps["optics"], Optics(mediumIndex, illumWavelen, illumPolarization, noiseSd), PriorValues(parameters))
      ensures (parameters, names) ==
        RegisterAll([], [], Occurrences(scatterer, "") + Occurrences(Optics(mediumIndex, illumWavelen, illumPolarization, noiseSd), ""))
    {
      parameters := [];
      names := [];
      maps := map[];
      new;
      var scattererMap := ConvertToMap(scatterer, "");
      ghost var before := parameters;
      ghost var beforeNames := names;
      var opticsMap := ConvertToMap(Optics(mediumIndex, illumWavelen, illumPolarization, noiseSd), "");
      Grown(scattererMap, scatterer, before, parameters);
      RegisterAllAppend([], [], Occurrences(scatterer, ""), Occurrences(Optics(mediumIndex, illumWavelen, illumPolarization, noiseSd), ""));
      maps := map["scatterer" := scattererMap, "optics" := opticsMap];
    }

    /** `_convert_to_map(v, name)`: a map that reads back `v` against the
        registry, whose priors it registers on the way. The registry only
        grows at the end, so maps built earlier stay valid. */
    method ConvertToMap(v: Value, name: string) returns (m: Map)
      requires Valid() && WellFormed(v)
      modifies this
      ensures Valid() && maps == old(maps)
      ensures |old(parameters)| <= |parameters| && parameters[..|old(parameters)|] == old(parameters)
      ensures ParamsBelow(m, |parameters|) && MapsBack(m, v, PriorValues(parameters))
      ensures (parameters, names) == RegisterAll(old(parameters), old(names), Occurrences(v, name))
      decreases Size(v), 1
    {
      match v
      case Sequence(kind, items) =>
        var ms := IterateMapping(name + ".", Labels(|items|), items);
        m := List(ms);
        SequenceMapsBack(kind, items, ms, PriorValues(parameters));
      case Dictionary(keys, values) =>
        m := MapDictionary(keys, values, name);
      case LabelledArray(dim, coords, values) =>
        m := MapXArray(dim, coords, values, name);
      case ComplexPrior(re, im) =>
        m := MapComplex(re, im, name);
      case PriorRef(p) =>
        var index := CheckForTies(p, name);
        m := Param(index);
        RegisterAllOne(old(parameters), old(names), Occurrence(p, name));
      case _ =>
        m := Const(v);
    }

    /** `_iterate_mapping(prefix, zip(labels, values))`: the maps of the
        values in order, the `k`-th built under the name `prefix + labels[k]`. */
    method IterateMapping(prefix: string, labels: seq<string>, values: seq<Value>) returns (ms: seq<Map>)
      requires Valid() && |labels| == |values|
      requires forall k :: 0 <= k < |values| ==> WellFormed(values[k])
      modifies this
      ensures Valid() && maps == old(maps)
      ensures |old(parameters)| <= |parameters| && parameters[..|old(parameters)|] == old(parameters)
      ensures |ms| == |values|
      ensures forall k :: 0 <= k < |ms| ==> ParamsBelow(ms[k], |parameters|) && MapsBack(ms[k], values[k], PriorValues(parameters))
      ensures (parameters, names) == RegisterAll(old(parameters), old(names), OccurrencesAll(prefix, labels, values))
      decreases SizeAll(values), 2
    {
      ms := [];
      for i := 0 to |values|
        invariant Valid() && maps == old(maps)
        invariant |old(parameters)| <= |parameters| && parameters[..|old(parameters)|] == old(parameters)
        invariant |ms| == i && MapsBackPrefix(ms, values, parameters)
        invariant (parameters, names) == RegisterAll(old(parameters), old(names), OccurrencesAll(prefix, labels[..i], values[..i]))
      {
        SizeAllBound(values, i);
        ghost var before, beforeNames := parameters, names;
        var m := ConvertToMap(values[i], prefix + labels[i]);
        assert parameters[..|old(parameters)|] == before[..|old(parameters)|];
        MapsBackPrefixStep(ms, m, values, before, parameters);
        RegisterAllSnoc(old(parameters), old(names), prefix, labels, values, i);
        ms := ms + [m];
      }
      assert labels[..|values|] == labels && values[..|values|] == values;
    }

    /** `_map_dictionary`: `[dict, [[key, map] ...]]`, leaving out the keys
        whose map is `None`; the values are named `name.key`, or just `key`
        at the top level. */
    method MapDictionary(keys: seq<string>, values: seq<Value>, name: string) returns (m: Map)
      requires Valid() && |keys| == |values| && Distinct(keys)
      requires forall k :: 0 <= k < |values| ==> WellFormed(values[k])
      modifies this
      ensures Valid() && maps == old(maps)
      ensures |old(parameters)| <= |parameters| && parameters[..|old(parameters)|] == old(parameters)
      ensures ParamsBelow(m, |parameters|) && MapsBack(m, Dictionary(keys, values), PriorValues(parameters))
      ensures (parameters, names) == RegisterAll(old(parameters), old(names), Occurrences(Dictionary(keys, values), name))
      decreases 1 + SizeAll(values), 0
    {
      var prefix := if |name| > 0 then name + "." else "";
      var ms := IterateMapping(prefix, keys, values);
      m := Apply(MakeDict, [List(Entries(keys, ms))]);
      DictMapsBack(keys, values, ms, PriorValues(parameters));
      EntriesBelow(keys, ms, |parameters|);
    }

    /** `_map_xarray`: `[make_xarray, [dim, coords, maps of the entries]]`,
        the entries named `name.coord`. */
    method MapXArray(dim: string, coords: seq<string>, values: seq<Value>, name: string) returns (m: Map)
      requires Valid() && |coords| == |values|
      requires forall k :: 0 <= k < |values| ==> WellFormed(values[k])
      modifies this
      ensures Valid() && maps == old(maps)
      ensures |old(parameters)| <= |parameters| && parameters[..|old(parameters)|] == old(parameters)
      ensures ParamsBelow(m, |parameters|) && MapsBack(m, LabelledArray(dim, coords, values), PriorValues(parameters))
      ensures (parameters, names) == RegisterAll(old(parameters), old(names), Occurrences(LabelledArray(dim, coords, values), name))
      decreases 1 + SizeAll(values), 0
    {
      var ms := IterateMapping(name + ".", coords, values);
      m := Apply(MakeXArray, [Const(Text(dim)), List(LabelMaps(coords)), List(ms)]);
      XArrayMapsBack(dim, coords, values, ms, PriorValues(parameters));
    }

    /** `_map_complex`: `[make_complex, [map of real, map of imag]]`, the
        parts named `name.real` and `name.imag`. */
    method MapComplex(re: Value, im: Value, name: string) returns (m: Map)
      requires Valid() && IsComplexPart(re) && IsComplexPart(im)
      modifies this
      ensures Valid() && maps == old(maps)
      ensures |old(parameters)| <= |parameters| && parameters[..|old(parameters)|] == old(parameters)
      ensures ParamsBelow(m, |parameters|) && MapsBack(m, ComplexPrior(re, im), PriorValues(parameters))
      ensures (parameters, names) == RegisterAll(old(parameters), old(names), Occurrences(ComplexPrior(re, im), name))
      decreases 1 + Size(re) + Size(im), 0
    {
      assert [re, im][..1] == [re] && [re][..0] == [];
      assert SizeAll([re]) == Size(re);
      assert SizeAll([re, im]) == Size(re) + Size(im);
      var ms := IterateMapping(name + ".", ["real", "imag"], [re, im]);
      m := Apply(MakeComplex, ms);
      ComplexMapsBack(re, im, ms, PriorValues(parameters));
    }

    /** `_check_for_ties(p, path)`: the slot of `p`. A prior registered
        before (the same object) keeps its slot, and its name loses the
        text up to its first colon unless another parameter has that name;
        a new prior is appended under its own name, or `path` when it has
        none, with `_0`, `_1`, … appended until the name is free. */
    method CheckForTies(p: Prior, path: string) returns (index: nat)
      requires Valid()
      modifies this
      ensures Valid() && maps == old(maps)
      ensures index < |parameters| && parameters[index] == p
      ensures p in old(parameters) ==>
        parameters == old(parameters) && index == IndexOf(old(parameters), p) &&
        names == old(names)[index := SharedName(old(names), index)]
      ensures p !in old(parameters) ==>
        parameters == old(parameters) + [p] && index == |old(parameters)| &&
        |names| == |parameters| && names[..index] == old(names) &&
        ChosenName(old(names), if p.name.Some? then p.name.value else path, names[index])
      ensures (parameters, names) == Register(old(parameters), old(names), Occurrence(p, path))
    {
      var registered := parameters;
      var i := 0;
      while i < |registered| && registered[i] != p
        invariant 0 <= i <= |registered|
        invariant forall k :: 0 <= k < i ==> registered[k] != p
      {
        i := i + 1;
      }
      if i < |registered| {
        index := i;
        var shared := AfterColon(names[i]);
        if shared !in names {
          names := names[i := shared];
        }
      } else {
        index := |registered|;
        parameters := registered + [p];
        var candidate := if p.name.Some? then p.name.value else path;
        var name := ChooseName(names, candidate);
        names := names + [name];
        forall key | key in maps ensures ParamsBelow(maps[key], |parameters|) {
          ParamsBelowMono(maps[key], |registered|, |parameters|);
        }
      }
    }

    /** `add_tie(toTie, newName)`. Every name must be registered and its
        prior equal to the first one's once names are set aside; the new
        name may not belong to a parameter that survives untied. Then every
        tied slot but the lowest is deleted, the survivor is renamed when a
        new name is given, and every map is renumbered. A call that fails
        changes nothing. */
    method AddTie(toTie: seq<string>, newName: Option<string>) returns (outcome: Result<(), TieError>)
      requires Valid() && Distinct(toTie)
      modifies this
      ensures Valid()
      ensures outcome.Err? ==> parameters == old(parameters) && names == old(names) && maps == old(maps)
      ensures |toTie| == 0 ==>
        (outcome.Ok? <==> newName.None? && forall key :: key in old(maps) ==> !HasParam(old(maps)[key])) &&
        (outcome.Err? ==> outcome.error == NoIndices) &&
        parameters == old(parameters) && names == old(names) && maps == old(maps)
      ensures |toTie| > 0 && ValidateTie(old(names), old(parameters), toTie[0], toTie).Err? ==>
        outcome == Err(ValidateTie(old(names), old(parameters), toTie[0], toTie).error)
      ensures |toTie| > 0 && ValidateTie(old(names), old(parameters), toTie[0], toTie).Ok? ==>
        (outcome.Err? <==> newName.Some? && newName.value in old(names) && newName.value !in toTie) &&
        (outcome.Err? ==> outcome.error == NameTaken(newName.value))
      ensures |toTie| > 0 && outcome.Ok? ==>
        ValidateTie(old(names), old(parameters), toTie[0], toTie).Ok? &&
        var slots := TieSlots(old(names), toTie);
        parameters == DeleteDescending(old(parameters), slots[1..]) &&
        names == RenameSurvivor(DeleteDescending(old(names), slots[1..]), slots[0], newName) &&
        maps == map key | key in old(maps) :: EditMapIndices(old(maps)[key], slots)
    {
      if |toTie| == 0 {
        if newName.Some? {
          return Err(NoIndices);
        }
        if exists key :: key in maps && HasParam(maps[key]) {
          return Err(NoIndices);
        }
        forall key | key in maps ensures EditMapIndices(maps[key], []) == maps[key] {
          EditNoParams(maps[key]);
        }
        maps := map key | key in maps :: EditMapIndices(maps[key], []);
        return Ok(());
      }
      var checked := CollectTieIndices(toTie);
      if checked.Err? {
        return Err(checked.error);
      }
      var indices := checked.value;
      if newName.Some? && newName.value in names && newName.value !in toTie {
        return Err(NameTaken(newName.value));
      }
      var slots := SortAscending(indices);
      var registered := names;
      assert indices == seq(|toTie|, k requires 0 <= k < |toTie| => IndexOf(registered, toTie[k]));
      assert slots == TieSlots(names, toTie);
      RenameKeepsNames(registered, toTie, slots, newName);
      ApplyTie(slots, newName);
      return Ok(());
    }

    /** The changes `add_tie` makes once its checks pass: the deletions,
        the renaming and the renumbering of every map. */
    method ApplyTie(slots: seq<nat>, newName: Option<string>)
      requires Valid() && StrictlyIncreasing(slots) && |slots| > 0
      requires slots[|slots| - 1] < |parameters|
      requires slots[0] < |DeleteDescending(names, slots[1..])|
      requires Distinct(RenameSurvivor(DeleteDescending(names, slots[1..]), slots[0], newName))
      modifies this
      ensures Valid()
      ensures parameters == DeleteDescending(old(parameters), slots[1..])
      ensures names == RenameSurvivor(DeleteDescending(old(names), slots[1..]), slots[0], newName)
      ensures maps == map key | key in old(maps) :: EditMapIndices(old(maps)[key], slots)
    {
      ghost var n := |parameters|;
      DeleteTied(slots);
      if newName.Some? {
        names := names[slots[0] := newName.value];
      }
      maps := map key | key in maps :: EditMapIndices(maps[key], slots);
      DeleteDescendingDistinct(old(parameters), slots[1..]);
      IncreasingFloor(slots, |slots| - 1);
      forall key | key in maps ensures ParamsBelow(maps[key], |parameters|) {
        EditParamsBelow(old(maps)[key], slots, n);
      }
    }

    /** The validation loop of `add_tie`: the slot of each name, or the
        first check that fails. */
    method CollectTieIndices(toTie: seq<string>) returns (checked: Result<seq<nat>, TieError>)
      requires |names| == |parameters| && |toTie| > 0
      ensures checked == ValidateTie(names, parameters, toTie[0], toTie)
    {
      var first := toTie[0];
      var indices: seq<nat> := [];
      for i := 0 to |toTie|
        invariant ValidateTie(names, parameters, first, toTie[..i]) == Ok(indices)
      {
        var par := toTie[i];
        assert toTie[..i + 1][..i] == toTie[..i];
        if par !in names {
          ValidateTiePrefix(names, parameters, first, toTie, i + 1);
          return Err(NotPresent(par));
        }
        assert i > 0 ==> toTie[..i][0] == first;
        var dict := ParameterDict();
        if !EqualIgnoringName(dict[par], dict[first]) {
          ValidateTiePrefix(names, parameters, first, toTie, i + 1);
          return Err(Unequal(par, first));
        }
        indices := indices + [IndexOf(names, par)];
      }
      assert toTie[..|toTie|] == toTie;
      return Ok(indices);
    }

    /** `for index in indices[:0:-1]`: deletes every tied slot but the
        lowest from both lists, the highest first. */
    method DeleteTied(slots: seq<nat>)
      requires |names| == |parameters| && StrictlyIncreasing(slots) && |slots| > 0
      requires slots[|slots| - 1] < |parameters|
      modifies this
      ensures parameters == DeleteDescending(old(parameters), slots[1..])
      ensures names == DeleteDescending(old(names), slots[1..])
      ensures maps == old(maps)
    {
      var j := |slots| - 1;
      ghost var before, beforeNames := parameters, names;
      DeletedAboveEnds(before, slots);
      DeletedAboveEnds(beforeNames, slots);
      while j > 0
        invariant 0 <= j < |slots|
        invariant parameters == DeletedAbove(before, slots, j)
        invariant names == DeletedAbove(beforeNames, slots, j)
        invariant maps == old(maps)
      {
        DeletedAboveStep(before, slots, j);
        DeletedAboveStep(beforeNames, slots, j);
        parameters := DeleteAt(parameters, slots[j]);
        names := DeleteAt(names, slots[j]);
        j := j - 1;
      }
    }

    /** `self.parameters`: each name mapped to its prior. */
    function ParameterDict(): (d: map<string, Prior>)
      reads this
      requires |names| == |parameters|
      ensures forall name :: name in d <==> name in names
      ensures Distinct(names) ==> forall k :: 0 <= k < |names| ==> d[names[k]] == parameters[k]
    {
      ZipToMapAll(names, parameters);
      ZipToMap(names, parameters)
    }

    /** `self.initial_guess`: each registered prior's guess, in slot order. */
    function InitialGuess(): (guess: seq<Value>)
      reads this
      ensures |guess| == |parameters|
      ensures forall k :: 0 <= k < |parameters| ==> guess[k] == Number(parameters[k].distribution.guess)
    {
      var registered := parameters;
      seq(|registered|, k requires 0 <= k < |registered| => Number(registered[k].distribution.guess))
    }

    /** The initial guess has a value for every slot a map uses, so every
        map of the builder's shape reads successfully against it. */
    lemma GuessReads(key: string)
      requires Valid() && key in maps && WellShaped(maps[key])
      ensures Read(maps[key], InitialGuess()).Ok?
    {
      assert NumbersOrPriors(InitialGuess());
      ReadSucceeds(maps[key], InitialGuess());
    }

    /** `ensure_parameters_are_listlike(pars)`: a list is used as it is; a
        dictionary is turned into the list of its values in registry order,
        failing on the first registered name it lacks. */
    function EnsureListlike(pars: ParameterValues): (r: Result<seq<Value>, string>)
      reads this
      ensures pars.ByPosition? ==> r == Ok(pars.values)
      ensures pars.ByName? ==> (r.Ok? <==> forall k :: 0 <= k < |names| ==> names[k] in pars.named)
      ensures pars.ByName? && r.Ok? ==>
        |r.value| == |names| && forall k :: 0 <= k < |names| ==> r.value[k] == pars.named[names[k]]
      ensures pars.ByName? && r.Err? ==> r.error in names && r.error !in pars.named
    {
      match pars
      case ByPosition(values) => Ok(values)
      case ByName(named) => LookupAll(names, named)
    }

    /** Values given by name come back in slot order: naming each value by
        its slot's name and handing the dictionary over gives the list back. */
    lemma ListlikeRoundTrip(values: seq<Value>)
      requires Valid() && |values| == |names|
      ensures EnsureListlike(ByName(ZipToMap(names, values))) == Ok(values)
    {
      ZipToMapAll(names, values);
      var r := EnsureListlike(ByName(ZipToMap(names, values)));
      assert r.Ok?;
      assert r.value == values;
    }
  }
}
