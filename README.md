# HoloPy's parameter-mapping engine, in Dafny

HoloPy's inference `Model` takes a scatterer's parameters and the optics
(medium index, illumination wavelength and polarization, noise). Each is a
nested configuration of lists, tuples, arrays, dictionaries, labelled
arrays and complex pairs. Constants and free `Prior` objects are mixed in
it. The model turns the configuration into two things:

- a registry of free parameters: the priors, each registered once by object
  identity, side by side with their unique names;
- a *map* per part of the model. A map is a recipe that rebuilds the
  configuration from any list of parameter values, one value per registered
  slot.

Parameters can be tied together afterwards. Tying shrinks the registry and
renumbers the placeholders of every map.

This project models that engine and proves what it promises:

- A map read back against the registered priors gives the configuration.
- The registry's names stay unique, and its two lists stay in step.
- Tying deletes the right slots, keeps the survivors in order, and fails
  without changing anything.
- Reading a map renumbered by a tie against the shrunk values gives the
  same result as before the tie.

Modules, in dependency order:

- `Outcomes`: `Option` and `Result`.
- `PyStrings`: the decimal `str`/`int` conversions, string reversal,
  `split("_", 1)` and `split("_")[-1]` on the strings the engine builds.
- `Placeholders`: the placeholder string `_parameter_<i>` and its two
  decoders.
- `Lists`: distinctness and sortedness, `list.index`, `list.sort`, `del`,
  and the deletion of several slots from the highest down.
- `Values`: priors (a class, so identity differs from equality), their
  comparison with the name set aside, and the configuration values.
- `Maps`: the map datatype, `read_map` and `edit_map_indices`, with their
  properties.
- `ReadBack`: what the builder's maps read back, one shape of
  configuration at a time.
- `Naming`: the `_0`, `_1`, … counter of `_check_for_ties` and the
  prefix stripping of a shared name.
- `Registry`: the priors of a configuration in the order the builder meets
  them, each with its dotted path, and what registering them one after
  another does to the lists of priors and names, stated as functions.
- `Ties`: `add_tie`'s validation, slot computation and renaming, stated as
  functions. It also holds the as-written renaming of the finding below.
- `InferenceModel`: the `Model` class with its registry and maps, the
  builder methods, `_check_for_ties`, `add_tie` and the accessors.

A map is a tagged tree: `Const(value) | Param(slot) | List(items) |
Apply(ctor, args)`. Here `ctor` is `dict`, `make_xarray` or `make_complex`.
In the source, a placeholder is the string `_parameter_<slot>` and a
constructor application is the two-item list `[callable, args]`.
`Placeholders.EncodeDecode` proves that the string form and `Param(slot)`
carry the same information.

## Model

| member | source | states |
|---|---|---|
| PyStrings.ParseNatToString | holopy/inference/model.py:190 | `int(str(n))` gives `n` back for every natural number |
| PyStrings.NatToStringInjective | holopy/inference/model.py:190 | different counters are written as different decimal strings |
| PyStrings.ReverseReverse | holopy/inference/model.py:189-190 | reversing a string twice gives it back (`name[::-1]` then `[::-1]`) |
| PyStrings.SplitOnceAt | holopy/inference/model.py:189 | `split("_", 1)` of `a + "_" + b`, with no underscore in `a`, is `[a, b]` |
| PyStrings.LastFieldAfter | holopy/inference/model.py:93 | `split("_")[-1]` of `prefix + "_" + digits` is the digits when they hold no underscore |
| Placeholders.EncodeDecode | holopy/inference/model.py:92-93 | the placeholder of slot `i` starts with `_parameter_`, and both `int(s[11:])` and `int(s.split("_")[-1])` decode it to `i` |
| Placeholders.EncodeInjective | holopy/inference/model.py:139 | different slots get different placeholder strings |
| Placeholders.Encode | holopy/inference/model.py:139 | the placeholder written for a slot passes the `_parameter_` test that `read_map` and `edit_map_indices` apply to a string |
| Lists.DeleteAt | holopy/inference/model.py:219 | `del s[k]` removes exactly position `k` and shifts the rest down by one |
| Lists.DeleteDescending | holopy/inference/model.py:218-220 | the reverse deletion loop removes exactly one entry per dropped slot (which entries, and where the rest go, is `Lists.DeleteDescendingAt`) |
| Lists.DeleteDescendingFirst | holopy/inference/model.py:218-220 | deleting the tied slots from the highest down ends by deleting the lowest of them from what is left |
| Lists.DeleteDescendingAt | holopy/inference/model.py:218-220 | an entry that is not deleted moves down by the number of deleted slots below it and keeps its value, so survivors keep their relative order |
| Lists.DeleteDescendingFrom | holopy/inference/model.py:218-220 | every entry left after the deletions was an entry at a slot that was not deleted |
| Lists.DeleteDescendingDistinct | holopy/inference/model.py:218-220 | deleting slots from a list without repeats leaves a list without repeats |
| Lists.DeletedAboveStep | holopy/inference/model.py:218-220 | one step of the reverse loop: the next slot is in range and deleting it extends the deletions made so far |
| Lists.IndexOf | holopy/inference/model.py:216 | `list.index` gives the first position holding the value |
| Lists.SortAscending | holopy/inference/model.py:217 | `indices.sort()` gives a sorted permutation of the indices |
| Lists.SortDistinct | holopy/inference/model.py:217 | sorting indices without repeats gives a strictly increasing list |
| Lists.CountBelowBound | holopy/inference/model.py:99 | `(np.array(indices) < i).sum()` counts at most `i` of the strictly increasing indices |
| Values.Normalize | holopy/inference/model.py:67-76 | the read-back shape of a configuration is `None` exactly when the configuration is |
| Values.KeepNonNone | holopy/inference/model.py:152 | there are exactly as many kept entries as values that are not `None`; none of them is `None`, their keys are keys of the dictionary, and distinct keys stay distinct |
| Values.KeepNonNoneKeeps | holopy/inference/model.py:152 | every value that is not `None` is kept with its own key, placed after the kept entries of the keys before it, so the filter keeps the dictionary's order |
| Values.PriorValues | holopy/inference/model.py:290 | reading against `self._parameters` hands each slot its own prior |
| Maps.ReadAll | holopy/inference/model.py:72-74 | reading a list of maps succeeds exactly when every item reads, giving the items' values in order |
| Maps.ReadAllFirstError | holopy/inference/model.py:72-74 | items are read left to right, so a failed read reports the error of the first item that fails |
| Maps.Construct | holopy/inference/model.py:38-53 | only `make_xarray` raises `IndexError`, exactly when it is given three arguments whose last is an empty list (`values[0]` comes first, whatever the name and coords are); `dict` succeeds exactly on one list of pairs and gives `dict(pairs)`; `make_xarray` succeeds exactly on a name, text coords and as many non-empty values, and gives that labelled array; `make_complex` gives a complex prior exactly when a part is a prior, the complex number of two numbers otherwise, and fails on any other part |
| Maps.DictFromPairs | holopy/inference/model.py:153 | `dict(pairs)` has distinct keys, exactly the keys of the pairs |
| Maps.ReadExtend | holopy/inference/model.py:68 | a map reads the same against any longer value list that agrees on the slots the map uses |
| Maps.ReadSucceeds | holopy/inference/model.py:56-76 | `Maps.Read` (`read_map`): a map of the builder's shape, read against numbers or priors, succeeds exactly when every placeholder is below the number of values; otherwise `read_map` raises `IndexError` |
| Maps.ReadDictSucceeds | holopy/inference/model.py:69-74 | the same for a `[dict, [entries]]` map: it reads exactly when its placeholders are in range, and raises `IndexError` otherwise |
| Maps.ReadXArraySucceeds | holopy/inference/model.py:69-74 | the same for a `[make_xarray, [dim, coords, values]]` map |
| Maps.ReadAllIndexError | holopy/inference/model.py:72-74 | when no item of a list fails other than with `IndexError`, neither does the list |
| Maps.Renumber | holopy/inference/model.py:94-100 | a tied slot goes to the lowest tied slot, a slot below it stays, and a slot above it moves down by the number of tied slots below it less one |
| Maps.EditNoParams | holopy/inference/model.py:90-103 | with an empty list of indices, a map without placeholders comes back unchanged (only a placeholder makes the source look at `indices[0]`) |
| Maps.EditRenumbers | holopy/inference/model.py:79-103 | `Maps.EditMapIndices` (`edit_map_indices`) keeps the map's structure and every non-placeholder leaf, and renumbers each placeholder in place |
| Maps.EditAllRenumbers | holopy/inference/model.py:90-91 | the same, item by item, for a list of maps |
| Maps.ReadAfterTie | holopy/inference/model.py:217-224 | when the tied slots hold equal values, the renumbered map read against the shrunk value list gives what the old map gave against the old list |
| Maps.ReadAllAfterTie | holopy/inference/model.py:90-91 | the same for a list of maps |
| Maps.ReadParamAfterTie | holopy/inference/model.py:94-100 | a renumbered placeholder reads from the shrunk value list the value the old placeholder read, when the tied slots hold equal values |
| Maps.RenumberFrom | holopy/inference/model.py:94-100 | a slot goes to its representative (the lowest tied slot for a tied slot, itself otherwise), less the deleted slots below that representative |
| Maps.DictFromPairsSnoc | holopy/inference/model.py:153 | `dict` of pairs followed by a pair with a new key has that key last, with its value |
| Maps.EditParamsBelow | holopy/inference/model.py:223-224 | after a tie of `k` slots, every placeholder of a renumbered map is below the old count less `k - 1` |
| Maps.EditWellShaped | holopy/inference/model.py:90-103 | renumbering keeps the shape the builder gives maps |
| Maps.RenumberExample | holopy/inference/model.py:94-100 | tying slots 1 and 3 of five sends slots 0 to 4 to 0, 1, 2, 1, 3 |
| ReadBack.MapsBackExtend | holopy/inference/model.py:181-183 | a map stays a map of its configuration when more priors are appended to the registry |
| ReadBack.ReadAllBack | holopy/inference/model.py:72-74 | a list of maps reads back its items in their read-back shape, or the `IndexError` of an empty array |
| ReadBack.SequenceMapsBack | holopy/inference/model.py:129-130 | a list, tuple or array maps to the list of its items' maps and reads back as a list |
| ReadBack.ComplexMapsBack | holopy/inference/model.py:165-167 | `[make_complex, [real, imag]]` of parts that are numbers or priors reads back the complex prior, or the plain complex number when neither part is a prior |
| ReadBack.XArrayMapsBack | holopy/inference/model.py:155-163 | `[make_xarray, [dim, coords, values]]` reads back the labelled array, or raises `IndexError` when the array is empty |
| ReadBack.DictMapsBack | holopy/inference/model.py:148-153 | `[dict, [dict_args]]` reads back the dictionary without the entries whose value is `None` |
| ReadBack.DictReadBack | holopy/inference/model.py:151-153 | reading the dictionary's map gives the expected dictionary or the `IndexError` of an empty array inside it |
| ReadBack.DictFromDistinctPairs | holopy/inference/model.py:153 | `dict` of pairs with distinct keys keeps every pair in order |
| ReadBack.EntriesReadOk | holopy/inference/model.py:151-152 | when every value's map reads, the entries read back as the `[key, value]` pairs whose value is not `None` |
| ReadBack.EntriesReadErr | holopy/inference/model.py:151-152 | when a value's map fails with `IndexError` and none fails otherwise, so do the entries |
| ReadBack.Entries | holopy/inference/model.py:151-152 | there is one entry per key whose map is not `None`, and every entry is `[key, map]` for such a key |
| ReadBack.EntriesCover | holopy/inference/model.py:151-152 | every key whose map is not `None` has its entry `[key, map]`, after the entries of the earlier such keys |
| ReadBack.DictNormalized | holopy/inference/model.py:152-153 | `dict` of the kept pairs of read-back values is the read-back shape of the dictionary |
| ReadBack.DictReadBackOk | holopy/inference/model.py:151-153 | when every value's map reads back its value, the dictionary's map reads back the dictionary without its `None` entries |
| ReadBack.DictReadBackErr | holopy/inference/model.py:151-153 | when the dictionary holds an empty array, reading its map raises `IndexError` |
| Naming.SuffixedInjective | holopy/inference/model.py:187-190 | two counter names of one base are equal exactly when their counters are |
| Naming.SuffixedStep | holopy/inference/model.py:189-190 | one pass of the loop body turns `base_k` into `base_(k+1)` |
| Naming.ChooseName | holopy/inference/model.py:184-190 | the chosen name is the candidate when it is free, otherwise the first of `candidate_0`, `candidate_1`, … that is free; the loop ends because only finitely many names are taken |
| Naming.ChosenNameUnique | holopy/inference/model.py:184-190 | at most one name obeys the naming rule, so the name given is fixed by the taken names and the candidate |
| Naming.ChosenNameExample | holopy/inference/model.py:186-190 | with `x` and `x_0` taken, `x` becomes `x_1` |
| Naming.AfterColon | holopy/inference/model.py:177 | `split(':', 1)[-1]` is the whole name when it has no colon, and otherwise a strictly shorter tail of it |
| Naming.AfterColonOf | holopy/inference/model.py:177 | `split(':', 1)[-1]` of `prefix:rest`, with no colon in the prefix, is `rest` |
| Naming.SharedName | holopy/inference/model.py:177-179 | a re-registered prior takes the text after its name's first colon when no parameter has that name, and otherwise keeps its name; distinct names stay distinct |
| Naming.FreeName | holopy/inference/model.py:184-190 | for any taken names and candidate there is a name obeying the naming rule; it is the one `_check_for_ties` chooses |
| Naming.StrippedTrans | holopy/inference/model.py:177 | shortening a name at its colons and shortening the result again is a shortening of the first name |
| Registry.Labels | holopy/inference/model.py:145 | `enumerate` labels the items of a list `0`, `1`, … in order |
| Registry.RegisterAllSnoc | holopy/inference/model.py:144-146 | registering the priors of the first `i` items and then those of item `i` is registering the priors of the first `i + 1` items, as each pass of `_iterate_mapping` does |
| Registry.OccurrencesAllSnoc | holopy/inference/model.py:144-146 | the priors met in one more item come after those of the items before it, under the item's label |
| Registry.RegisterIs | holopy/inference/model.py:169-192 | one call of `_check_for_ties`: a prior met before keeps its slot, and only its name may change, to the text after its first colon when no parameter has that name; a new prior is appended under the name the naming loop chooses |
| Registry.RegisterKeeps | holopy/inference/model.py:169-192 | one registration keeps every earlier prior in its slot, registers the prior, and keeps every earlier name or a shortened form of it |
| Registry.RegisterAllAppend | holopy/inference/model.py:125-126 | registering one run of priors and then another is registering the two runs joined, as the scatterer's and then the optics' priors are |
| Registry.RegisterAllKeeps | holopy/inference/model.py:181-183 | registering a run never moves or drops a registered prior |
| Registry.RegisterAllRegisters | holopy/inference/model.py:137-138 | every prior met during a run is registered at its end |
| Registry.RegisterAllStrips | holopy/inference/model.py:177-179 | every earlier name survives a run, possibly shortened at its colons |
| Registry.RegisterAllDistinct | holopy/inference/model.py:169-192 | a run never registers a prior twice nor gives one name to two parameters |
| Registry.RegisterAllNew | holopy/inference/model.py:181-191 | every slot a run adds holds a prior first met in the run, at the position where it takes that slot; its name is the free name its own name or path led to there, shortened only by later meetings of the same prior |
| Registry.PathNamesExample | holopy/inference/model.py:128-153 | in `{'r': p, 'center': [q, 1.0]}` the unnamed priors are named by their paths, `r` and `center.0` |
| Registry.SharedNameExample | holopy/inference/model.py:175-179 | a prior named `s:t` met twice has one slot, named `t` after the second meeting |
| Ties.ZipToMapAt | holopy/inference/model.py:262-263 | `{name: par for name, par in zip(...)}` maps each name to the value beside it when no name repeats |
| Ties.ValidateTie | holopy/inference/model.py:205-216 | the checks pass exactly when every name is registered and its prior equals the first one's with names set aside; the result is each name's slot |
| Ties.ValidateTieError | holopy/inference/model.py:205-216 | a failure is the first name that is not registered (`ValueError`, not present) or whose prior differs from the first (`ValueError`, unequal) |
| Ties.ValidateTiePrefix | holopy/inference/model.py:206-215 | a check that fails on the first names fails in the same way on the whole list |
| Ties.TieSlots | holopy/inference/model.py:216-217 | the sorted slots are strictly increasing, one per tied name, and in range |
| Ties.TieSlotsAre | holopy/inference/model.py:216-217 | the slots are exactly the positions of the tied names |
| Ties.RenameSurvivor | holopy/inference/model.py:221-222 | only the survivor's name changes: to the new name when one is given, and not at all otherwise |
| Ties.RenameKeepsDistinct | holopy/inference/model.py:218-222 | deleting the tied slots and renaming the survivor keeps the names distinct when the new name is free or one of the tied names |
| Ties.TiedNamesAsWritten | holopy/inference/model.py:218-222 | as written, a successful tie of `k` names leaves `k - 1` fewer names, and the new name is among them whatever other parameter holds it |
| Ties.TieNameClash | holopy/inference/model.py:221-222 | as written, tying `a` and `b` under the name `c` of a third parameter leaves two parameters named `c` |
| InferenceModel.Optics | holopy/inference/model.py:121-122 | the optics dictionary has the four optics keys in order, each mapped to the value given for it |
| InferenceModel.LookupAll | holopy/inference/model.py:313 | `[pars[name] for name in names]` succeeds exactly when every name is a key, giving the values in order; otherwise it reports the first missing name |
| InferenceModel.Grown | holopy/inference/model.py:181-183 | a map built earlier still reads back its configuration after the registry grows |
| InferenceModel.RenameKeepsNames | holopy/inference/model.py:218-222 | when the new name is free or tied, the tie leaves all names distinct |
| InferenceModel.Model.constructor | holopy/inference/model.py:121-126 | a new model's registry is valid and its two maps, `scatterer` and `optics`, read back the scatterer's parameters and the optics dictionary against the registered priors; the priors and names are what registering the scatterer's priors and then the optics' priors, in the order met and under their dotted paths, gives |
| InferenceModel.Model.ConvertToMap | holopy/inference/model.py:128-142 | the map of any configuration reads back that configuration against the registered priors; the registry only grows at its end and stays valid, and it is the old registry with the configuration's priors registered in the order met, under `name` and its dotted extensions |
| InferenceModel.Model.IterateMapping | holopy/inference/model.py:144-146 | one map per value, in order, each reading back its value; maps built earlier stay valid as the registry grows; the values' priors are registered in order under `prefix` and each value's label |
| InferenceModel.Model.MapDictionary | holopy/inference/model.py:148-153 | the dictionary's map reads back the dictionary without its `None` entries; its priors are registered under `name.key`, or `key` at the top level |
| InferenceModel.Model.MapXArray | holopy/inference/model.py:155-163 | the labelled array's map reads it back, or raises `IndexError` when it is empty; its priors are registered under `name.coord` |
| InferenceModel.Model.MapComplex | holopy/inference/model.py:165-167 | the complex prior's map reads it back; a prior part is registered under `name.real` or `name.imag` |
| InferenceModel.Model.CheckForTies | holopy/inference/model.py:169-192 | a prior registered before (the same object) keeps its slot and adds nothing, its name possibly losing its prefix; a new prior is appended at the end under a name no other parameter has; names stay distinct and in step with the priors; the new registry is one `Registry.Register` step |
| InferenceModel.Model.AddTie | holopy/inference/model.py:194-224 | a failed tie (unregistered name, unequal priors, no names, new name taken) changes nothing and reports the first failure; a tie deletes every tied slot but the lowest, renames the survivor only when a new name is given, renumbers every map, and keeps the registry valid |
| InferenceModel.Model.CollectTieIndices | holopy/inference/model.py:205-216 | the validation loop gives the slots of the names or the first failing check |
| InferenceModel.Model.DeleteTied | holopy/inference/model.py:218-220 | the reverse loop deletes every tied slot but the lowest from both lists |
| InferenceModel.Model.ApplyTie | holopy/inference/model.py:217-224 | the deletions, renaming and renumbering keep the registry valid |
| InferenceModel.Model.ParameterDict | holopy/inference/model.py:257-263 | `parameters` has exactly the registered names as keys, each mapped to its prior |
| InferenceModel.Model.InitialGuess | holopy/inference/model.py:265-270 | `initial_guess` has one guess per slot, in slot order |
| InferenceModel.Model.GuessReads | holopy/inference/model.py:265-270 | every map of the builder's shape reads successfully against the initial guess |
| InferenceModel.Model.EnsureListlike | holopy/inference/model.py:309-314 | a list is used as it is; a dictionary gives its values in registry order, or fails on a registered name it lacks |
| InferenceModel.Model.ListlikeRoundTrip | holopy/inference/model.py:309-314 | naming each value by its slot's name and handing the dictionary over gives the list of values back |

## Left out

- I/O, the YAML loader `from_yaml` (lines 236-255), `fit_warning` (line 311) and `_iteritems` are not modelled: they are serialisation and warnings, with no effect on the maps.
- Likelihoods, priors' probability densities, forward models, `LimitOverlaps`, `fit`/`sample` and the `AlphaModel`/`ExactModel`/`PerfectLensModel` subclasses are not part of this model: they are floating-point physics and calls into scattering code.
- `_find_optics`, `_find_noise` and the optics and noise properties (lines 272-286) are not modelled. They are domain defaults around a read of the optics map, and `_find_noise` refers to an undefined name in its error branch.
- `scatterer.from_parameters`, the dummy scatterer (lines 115-116) and the `scatterer`/`scatterer_from_parameters` results (lines 288-307) are modelled only up to the `read_map` they perform. The scatterer is stood for by its `parameters` configuration, and building a scatterer object is foreign code.
- `theory` and `constraints` (lines 117-118) are not modelled: they are stored only.
- `ensure_array` of a non-scalar `noise_sd` (lines 119-120) is not modelled: the noise value is taken as already converted.
- `Prior.renamed(None) ==` is modelled as equality of the distribution (`EqualIgnoringName`). The distribution's real fields and densities are not modelled.
- numpy arrays, xarray `DataArray`s and Python `complex` are modelled as values: `Sequence(NdArray, …)`, `LabelledArray(dim, coords, values)` (one labelled axis whose entries may themselves be arrays; multi-dimensional arrays nest) and `ComplexNumber`. Their numeric contents, `xr.concat` and `np.array` conversion are left out.
- Strings that merely look like a placeholder: in the source, a constant string starting with `_parameter_` would be read as a placeholder. The tagged map cannot confuse a constant with a placeholder, so this accident is not modelled.
- Callables inside a configuration, and a configuration list of two items whose first map is callable, are not modelled: configurations hold numbers, text, `None`, priors and containers only.
- Python exceptions other than `IndexError` from `read_map` are collapsed into `BadArguments(ctor)`: `dict` of items that are not pairs, `make_xarray` with other arguments than a name, text coords and as many values (unless the values are an empty list, which is the `IndexError` of `values[0]`), and `complex(real, imag)` on a part that is not a number (`TypeError`). Only the last can come from a builder map, through a complex prior part that is neither a number nor a prior; the configurations here exclude that part.
- Maps.Construct: `complex(real, imag)` of Python `complex` parts, which Python accepts, fails here with `BadArguments(MakeComplex)`, and complex prior parts are limited to numbers and priors (`IsComplexPart`). The numeric value of a complex number is not modelled.
- Maps.ReadSucceeds: assumes the parameter values are numbers or priors, as `initial_guess` and the registered priors are. An arbitrary value list could make `make_complex` fail on a non-number part.
- Maps.ReadDictSucceeds: assumes numbers or priors as parameter values, for the same reason.
- Maps.ReadXArraySucceeds: assumes numbers or priors as parameter values, for the same reason.
- Keys of dictionaries and coords of labelled arrays are strings only. The source allows numbers and any hashable key, and `str` of such a key would enter the dotted path.
- InferenceModel.Model.AddTie: requires distinct names in `parameters_to_tie`. The source does not guard against a repeated name, which would delete the survivor's own slot.
- InferenceModel.Model.AddTie: rejects a `new_name` held by a parameter outside the tie (`NameTaken`). This is the corrected behaviour under "Findings"; the as-written renaming is `Ties.TiedNamesAsWritten`.
- Maps.EditMapIndices: requires strictly increasing indices, as `add_tie` passes them (sorted, distinct names); with no indices it requires a map without placeholders, the only case in which the source does not raise `IndexError`.

## Findings

| source | as written | input that shows it | evidently intended | confidence | as-written member | corrected member |
|---|---|---|---|---|---|---|
| holopy/inference/model.py:221-222 | the survivor of a tie is renamed to `new_name` without checking the names of the other parameters | parameters `a`, `b`, `c` with equal priors for `a` and `b`; `add_tie(['a', 'b'], new_name='c')` leaves the names `['c', 'c']`, and the `parameters` dictionary then loses one of the two | parameter names stay unique, as `_check_for_ties` ensures when registering; a `new_name` held by an untied parameter is refused | medium, not executed | Ties.TieNameClash | InferenceModel.Model.AddTie |
