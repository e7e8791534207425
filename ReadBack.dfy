/** What the builder's maps give back when they are read against the
    priors they were built with, one shape of configuration at a time. The
    model's builder methods (module `InferenceModel`) put these together. */
module ReadBack {
  import opened Outcomes
  import opened Lists
  import opened Values
  import opened Maps

  /** What reading the map of `v` against the registered priors is meant
      to give: `v` in its read-back shape, or the `IndexError` that
      `make_xarray` raises when a labelled array in `v` is empty. */
  function Expected(v: Value): Result<Value, ReadError>
    requires WellFormed(v)
  {
    if NoEmptyArray(v) then Ok(Normalize(v)) else Err(IndexError)
  }

  /** `m` is a map of `v` for the values `vals`: it reads back as expected,
      it is the constant `None` exactly when `v` is `None`, a number is kept
      as a constant and a prior becomes a placeholder, and it has the shape
      the builder gives maps whose arrays are not empty. */
  predicate MapsBack(m: Map, v: Value, vals: seq<Value>) {
    WellFormed(v) && Read(m, vals) == Expected(v) &&
    (m == Const(NoneValue) <==> v == NoneValue) &&
    (v.Number? ==> m == Const(v)) && (v.PriorRef? ==> m.Param?) &&
    (NoEmptyArray(v) ==> WellShaped(m))
  }

  /** A map of `v` stays one when more values are appended after the slots
      it uses. */
  lemma MapsBackExtend(m: Map, v: Value, vals: seq<Value>, more: seq<Value>)
    requires MapsBack(m, v, vals) && ParamsBelow(m, |vals|)
    requires |vals| <= |more| && vals == more[..|vals|]
    ensures MapsBack(m, v, more) && ParamsBelow(m, |more|)
  {
    ReadExtend(m, vals, more);
    ParamsBelowMono(m, |vals|, |more|);
  }

  function NormalizeAll(vs: seq<Value>): (ns: seq<Value>)
    requires forall k :: 0 <= k < |vs| ==> WellFormed(vs[k])
    ensures |ns| == |vs| && forall k :: 0 <= k < |vs| ==> ns[k] == Normalize(vs[k])
  {
    seq(|vs|, k requires 0 <= k < |vs| => Normalize(vs[k]))
  }

  /** A list of maps read against `vals` gives the items of `vs` in their
      read-back shape, or the `IndexError` of the first empty array. */
  lemma {:induction false} ReadAllBack(ms: seq<Map>, vs: seq<Value>, vals: seq<Value>)
    requires |ms| == |vs|
    requires forall k :: 0 <= k < |vs| ==> WellFormed(vs[k])
    requires forall k :: 0 <= k < |ms| ==> MapsBack(ms[k], vs[k], vals)
    ensures ReadAll(ms, vals) ==
      if forall k :: 0 <= k < |vs| ==> NoEmptyArray(vs[k]) then Ok(NormalizeAll(vs)) else Err(IndexError)
  {
    forall k | 0 <= k < |ms| ensures Read(ms[k], vals) == Expected(vs[k]) {
      assert MapsBack(ms[k], vs[k], vals);
    }
    var rs := ReadAll(ms, vals);
    if rs.Err? {
      ReadAllFirstError(ms, vals);
    } else {
      assert rs.value == NormalizeAll(vs);
    }
  }

  /** `[convert(item) for item in items]` wrapped in a list. */
  lemma SequenceMapsBack(kind: SeqKind, items: seq<Value>, ms: seq<Map>, vals: seq<Value>)
    requires |ms| == |items| && forall k :: 0 <= k < |ms| ==> MapsBack(ms[k], items[k], vals)
    ensures MapsBack(List(ms), Sequence(kind, items), vals)
  {
    assert forall k :: 0 <= k < |ms| ==> MapsBack(ms[k], items[k], vals) && WellFormed(items[k]);
    ReadAllBack(ms, items, vals);
  }

  /** `[make_complex, [map of real, map of imag]]` */
  lemma ComplexMapsBack(re: Value, im: Value, ms: seq<Map>, vals: seq<Value>)
    requires IsComplexPart(re) && IsComplexPart(im)
    requires |ms| == 2 && MapsBack(ms[0], re, vals) && MapsBack(ms[1], im, vals)
    ensures MapsBack(Apply(MakeComplex, ms), ComplexPrior(re, im), vals)
  {
    assert [re, im][0] == re && [re, im][1] == im;
    ReadAllBack(ms, [re, im], vals);
  }

  /** The constant maps of an array's coordinate labels. */
  function LabelMaps(coords: seq<string>): (ms: seq<Map>)
    ensures |ms| == |coords| && forall k :: 0 <= k < |coords| ==> ms[k] == Const(Text(coords[k]))
  {
    seq(|coords|, k requires 0 <= k < |coords| => Const(Text(coords[k])))
  }

  /** `[make_xarray, [dim_name, coord_keys, values_map]]` */
  lemma XArrayMapsBack(dim: string, coords: seq<string>, values: seq<Value>, ms: seq<Map>, vals: seq<Value>)
    requires |coords| == |values| == |ms|
    requires forall k :: 0 <= k < |ms| ==> MapsBack(ms[k], values[k], vals)
    ensures MapsBack(Apply(MakeXArray, [Const(Text(dim)), List(LabelMaps(coords)), List(ms)]),
                     LabelledArray(dim, coords, values), vals)
  {
    assert forall k :: 0 <= k < |ms| ==> MapsBack(ms[k], values[k], vals) && WellFormed(values[k]);
    XArrayRead(dim, coords, values, ms, vals);
    if NoEmptyArray(LabelledArray(dim, coords, values)) {
      XArrayShape(dim, coords, values, ms, vals);
    }
  }

  lemma XArrayRead(dim: string, coords: seq<string>, values: seq<Value>, ms: seq<Map>, vals: seq<Value>)
    requires |coords| == |values| == |ms|
    requires forall k :: 0 <= k < |ms| ==> MapsBack(ms[k], values[k], vals) && WellFormed(values[k])
    ensures Read(Apply(MakeXArray, [Const(Text(dim)), List(LabelMaps(coords)), List(ms)]), vals) ==
            Expected(LabelledArray(dim, coords, values))
  {
    var labels := ReadAll(LabelMaps(coords), vals);
    assert labels.Ok? && AllText(labels.value) && Texts(labels.value) == coords;
    ReadAllBack(ms, values, vals);
    ReadApplyThree(MakeXArray, Const(Text(dim)), List(LabelMaps(coords)), List(ms), vals);
  }

  lemma XArrayShape(dim: string, coords: seq<string>, values: seq<Value>, ms: seq<Map>, vals: seq<Value>)
    requires |coords| == |values| == |ms|
    requires forall k :: 0 <= k < |ms| ==> MapsBack(ms[k], values[k], vals)
    requires NoEmptyArray(LabelledArray(dim, coords, values))
    ensures WellShaped(Apply(MakeXArray, [Const(Text(dim)), List(LabelMaps(coords)), List(ms)]))
  {
    var args := [Const(Text(dim)), List(LabelMaps(coords)), List(ms)];
    assert args[2].items == ms && args[1].items == LabelMaps(coords);
    forall k | 0 <= k < |ms| ensures WellShaped(ms[k]) {
      assert MapsBack(ms[k], values[k], vals) && NoEmptyArray(values[k]);
    }
  }

  /** The `[key, map]` entries of a dictionary's map, skipping the keys
      whose map is `None`: `[[key, val] for key, val in ... if val is not
      None]`. Each entry comes from a key whose map is not `None`, and there
      are as many entries as such keys (`EntriesCover` places each). */
  function Entries(keys: seq<string>, ms: seq<Map>): (es: seq<Map>)
    requires |keys| == |ms|
    ensures |es| == CountNot(ms, Const(NoneValue))
    ensures forall j :: 0 <= j < |es| ==>
      exists k :: 0 <= k < |ms| && ms[k] != Const(NoneValue) && es[j] == List([Const(Text(keys[k])), ms[k]])
  {
    if |ms| == 0 then []
    else
      var n := |ms| - 1;
      var front := Entries(keys[..n], ms[..n]);
      assert forall k :: 0 <= k < n ==> keys[..n][k] == keys[k] && ms[..n][k] == ms[k];
      if ms[n] == Const(NoneValue) then front
      else front + [List([Const(Text(keys[n])), ms[n]])]
  }

  /** Every key whose map is not `None` has its entry, after exactly the
      entries of the keys before it. */
  lemma {:induction false} EntriesCover(keys: seq<string>, ms: seq<Map>, k: nat)
    requires |keys| == |ms| && k < |ms| && ms[k] != Const(NoneValue)
    ensures CountNot(ms[..k], Const(NoneValue)) < |Entries(keys, ms)|
    ensures Entries(keys, ms)[CountNot(ms[..k], Const(NoneValue))] == List([Const(Text(keys[k])), ms[k]])
  {
    var n := |ms| - 1;
    EntriesSnoc(keys, ms);
    if k < n {
      EntriesCover(keys[..n], ms[..n], k);
      assert ms[..n][..k] == ms[..k];
      assert ms[..n][k] == ms[k] && keys[..n][k] == keys[k];
    } else {
      assert ms[..k] == ms[..n];
    }
  }

  /** The pairs `dict(...)` is handed when the entries are read. */
  function Pairs(kept: (seq<string>, seq<Value>)): (ps: seq<Value>)
    requires |kept.0| == |kept.1|
    ensures |ps| == |kept.0| && IsPairList(ps)
  {
    seq(|kept.0|, k requires 0 <= k < |kept.0| => Sequence(PyList, [Text(kept.0[k]), kept.1[k]]))
  }

  /** One `[key, map]` entry read back. */
  lemma EntryRead(key: string, m: Map, vals: seq<Value>)
    ensures Read(List([Const(Text(key)), m]), vals) ==
      if Read(m, vals).Ok? then Ok(Sequence(PyList, [Text(key), Read(m, vals).value])) else Err(Read(m, vals).error)
  {
    ReadAllTwo(Const(Text(key)), m, vals);
  }

  /** The entries of one more key. */
  lemma EntriesSnoc(keys: seq<string>, ms: seq<Map>)
    requires |keys| == |ms| > 0
    ensures var n := |ms| - 1;
      Entries(keys, ms) ==
        if ms[n] == Const(NoneValue) then Entries(keys[..n], ms[..n])
        else Entries(keys[..n], ms[..n]) + [List([Const(Text(keys[n])), ms[n]])]
  {
  }

  /** The kept pairs of one more key. */
  lemma KeptSnoc(keys: seq<string>, ws: seq<Value>)
    requires |keys| == |ws| > 0
    ensures var n := |ws| - 1;
      Pairs(KeepNonNone(keys, ws)) ==
        if ws[n] == NoneValue then Pairs(KeepNonNone(keys[..n], ws[..n]))
        else Pairs(KeepNonNone(keys[..n], ws[..n])) + [Sequence(PyList, [Text(keys[n]), ws[n]])]
  {
    var n := |ws| - 1;
    assert keys[..n] == keys[..|keys| - 1];
    var kept, frontKept := KeepNonNone(keys, ws), KeepNonNone(keys[..n], ws[..n]);
    if ws[n] != NoneValue {
      assert kept == (frontKept.0 + [keys[n]], frontKept.1 + [ws[n]]);
      PairsSnoc(frontKept.0, frontKept.1, keys[n], ws[n]);
    }
  }

  lemma PairsSnoc(ks: seq<string>, ws: seq<Value>, key: string, w: Value)
    requires |ks| == |ws|
    ensures Pairs((ks + [key], ws + [w])) == Pairs((ks, ws)) + [Sequence(PyList, [Text(key), w])]
  {
  }

  /** When every map reads, the entries read as the `[key, value]` pairs
      whose value is not `None`. */
  lemma {:induction false} EntriesReadOk(keys: seq<string>, ms: seq<Map>, ws: seq<Value>, vals: seq<Value>)
    requires |keys| == |ms| && |ms| == |ws|
    requires forall k :: 0 <= k < |ms| ==> Read(ms[k], vals) == Ok(ws[k])
    requires forall k :: 0 <= k < |ms| ==> (ms[k] == Const(NoneValue) <==> ws[k] == NoneValue)
    ensures ReadAll(Entries(keys, ms), vals) == Ok(Pairs(KeepNonNone(keys, ws)))
  {
    if |ms| > 0 {
      var n := |ms| - 1;
      EntriesReadOk(keys[..n], ms[..n], ws[..n], vals);
      EntriesSnoc(keys, ms);
      KeptSnoc(keys, ws);
      if ms[n] != Const(NoneValue) {
        EntryRead(keys[n], ms[n], vals);
        ReadAllSnoc(Entries(keys[..n], ms[..n]), List([Const(Text(keys[n])), ms[n]]), vals);
      }
    }
  }

  /** When the maps fail only with `IndexError`, so do their entries. */
  lemma {:induction false} EntriesErrorIsIndex(keys: seq<string>, ms: seq<Map>, vals: seq<Value>)
    requires |keys| == |ms|
    requires forall k :: 0 <= k < |ms| && Read(ms[k], vals).Err? ==> Read(ms[k], vals).error == IndexError
    ensures ReadAll(Entries(keys, ms), vals).Err? ==> ReadAll(Entries(keys, ms), vals).error == IndexError
  {
    if |ms| > 0 {
      var n := |ms| - 1;
      EntriesErrorIsIndex(keys[..n], ms[..n], vals);
      EntriesSnoc(keys, ms);
      if ms[n] != Const(NoneValue) {
        EntryRead(keys[n], ms[n], vals);
        ReadAllSnoc(Entries(keys[..n], ms[..n]), List([Const(Text(keys[n])), ms[n]]), vals);
      }
    }
  }

  /** When some map fails with `IndexError` and no map fails otherwise, the
      entries fail with `IndexError`. */
  lemma {:induction false} EntriesReadErr(keys: seq<string>, ms: seq<Map>, vals: seq<Value>, bad: nat)
    requires |keys| == |ms| && bad < |ms| && Read(ms[bad], vals).Err?
    requires forall k :: 0 <= k < |ms| && Read(ms[k], vals).Err? ==> Read(ms[k], vals).error == IndexError
    ensures ReadAll(Entries(keys, ms), vals) == Err(IndexError)
  {
    var n := |ms| - 1;
    var front := Entries(keys[..n], ms[..n]);
    EntriesSnoc(keys, ms);
    if bad < n {
      EntriesReadErr(keys[..n], ms[..n], vals, bad);
      if ms[n] != Const(NoneValue) {
        ReadAllSnoc(front, List([Const(Text(keys[n])), ms[n]]), vals);
      }
    } else {
      EntriesLastErr(keys, ms, vals);
    }
  }

  /** The case of `EntriesReadErr` where the last map is the one that fails. */
  lemma EntriesLastErr(keys: seq<string>, ms: seq<Map>, vals: seq<Value>)
    requires |keys| == |ms| > 0 && Read(ms[|ms| - 1], vals).Err?
    requires forall k :: 0 <= k < |ms| && Read(ms[k], vals).Err? ==> Read(ms[k], vals).error == IndexError
    ensures ReadAll(Entries(keys, ms), vals) == Err(IndexError)
  {
    var n := |ms| - 1;
    var front := Entries(keys[..n], ms[..n]);
    var last := List([Const(Text(keys[n])), ms[n]]);
    assert ms[n] != Const(NoneValue);
    EntriesSnoc(keys, ms);
    assert Entries(keys, ms) == front + [last];
    EntriesErrorIsIndex(keys[..n], ms[..n], vals);
    EntryRead(keys[n], ms[n], vals);
    assert Read(last, vals) == Err(IndexError);
    ReadAllSnoc(front, last, vals);
  }

  /** `dict(pairs)` with no key twice keeps every pair, in order. */
  lemma {:induction false} DictFromDistinctPairs(kept: (seq<string>, seq<Value>))
    requires |kept.0| == |kept.1| && Distinct(kept.0)
    ensures DictFromPairs(Pairs(kept)) == Dictionary(kept.0, kept.1)
    decreases |kept.0|
  {
    var n := |kept.0|;
    if n > 0 {
      var front := (kept.0[..n - 1], kept.1[..n - 1]);
      var key, value := kept.0[n - 1], kept.1[n - 1];
      DictFromDistinctPairs(front);
      assert key !in front.0;
      DictFromPairsSnoc(Pairs(front), key, value);
      assert kept.0 == front.0 + [key] && kept.1 == front.1 + [value];
      PairsSnoc(front.0, front.1, key, value);
    }
  }

  /** `[dict, [dict_args]]` */
  lemma DictMapsBack(keys: seq<string>, values: seq<Value>, ms: seq<Map>, vals: seq<Value>)
    requires |keys| == |values| == |ms| && Distinct(keys)
    requires forall k :: 0 <= k < |ms| ==> MapsBack(ms[k], values[k], vals)
    ensures MapsBack(Apply(MakeDict, [List(Entries(keys, ms))]), Dictionary(keys, values), vals)
  {
    assert forall k :: 0 <= k < |ms| ==> MapsBack(ms[k], values[k], vals) && WellFormed(values[k]);
    DictReadBack(keys, values, ms, vals);
    if NoEmptyArray(Dictionary(keys, values)) {
      DictShape(keys, values, ms, vals);
    }
  }

  lemma DictReadBack(keys: seq<string>, values: seq<Value>, ms: seq<Map>, vals: seq<Value>)
    requires |keys| == |values| == |ms| && Distinct(keys)
    requires forall k :: 0 <= k < |values| ==> WellFormed(values[k])
    requires forall k :: 0 <= k < |ms| ==> MapsBack(ms[k], values[k], vals)
    ensures Read(Apply(MakeDict, [List(Entries(keys, ms))]), vals) == Expected(Dictionary(keys, values))
  {
    var es := Entries(keys, ms);
    forall k | 0 <= k < |ms|
      ensures Read(ms[k], vals) == Expected(values[k])
      ensures ms[k] == Const(NoneValue) <==> values[k] == NoneValue
    {
      assert MapsBack(ms[k], values[k], vals);
    }
    if NoEmptyArray(Dictionary(keys, values)) {
      DictReadBackOk(keys, values, ms, vals);
    } else {
      DictReadBackErr(keys, values, ms, vals);
    }
  }

  lemma DictReadBackErr(keys: seq<string>, values: seq<Value>, ms: seq<Map>, vals: seq<Value>)
    requires |keys| == |values| == |ms|
    requires forall k :: 0 <= k < |values| ==> WellFormed(values[k])
    requires forall k :: 0 <= k < |ms| ==> Read(ms[k], vals) == Expected(values[k])
    requires !NoEmptyArray(Dictionary(keys, values))
    ensures Read(Apply(MakeDict, [List(Entries(keys, ms))]), vals) == Err(IndexError)
  {
    var bad :| 0 <= bad < |values| && !NoEmptyArray(values[bad]);
    EntriesReadErr(keys, ms, vals, bad);
    ReadApplyOne(MakeDict, List(Entries(keys, ms)), vals);
  }

  lemma DictReadBackOk(keys: seq<string>, values: seq<Value>, ms: seq<Map>, vals: seq<Value>)
    requires |keys| == |values| == |ms| && Distinct(keys)
    requires forall k :: 0 <= k < |values| ==> WellFormed(values[k]) && NoEmptyArray(values[k])
    requires forall k :: 0 <= k < |ms| ==> Read(ms[k], vals) == Expected(values[k])
    requires forall k :: 0 <= k < |ms| ==> (ms[k] == Const(NoneValue) <==> values[k] == NoneValue)
    ensures Read(Apply(MakeDict, [List(Entries(keys, ms))]), vals) == Ok(Normalize(Dictionary(keys, values)))
  {
    var ws := NormalizeAll(values);
    EntriesReadOk(keys, ms, ws, vals);
    DictNormalized(keys, values);
    ReadApplyOne(MakeDict, List(Entries(keys, ms)), vals);
  }

  /** The kept pairs of a dictionary with no key twice give back its
      read-back shape. */
  lemma {:induction false} DictNormalized(keys: seq<string>, values: seq<Value>)
    requires |keys| == |values| && Distinct(keys)
    requires forall k :: 0 <= k < |values| ==> WellFormed(values[k])
    ensures DictFromPairs(Pairs(KeepNonNone(keys, NormalizeAll(values)))) == Normalize(Dictionary(keys, values))
  {
    var ws := NormalizeAll(values);
    DictFromDistinctPairs(KeepNonNone(keys, ws));
    assert ws == seq(|values|, k requires 0 <= k < |values| => Normalize(values[k]));
  }

  lemma DictShape(keys: seq<string>, values: seq<Value>, ms: seq<Map>, vals: seq<Value>)
    requires |keys| == |values| == |ms| && Distinct(keys)
    requires forall k :: 0 <= k < |ms| ==> MapsBack(ms[k], values[k], vals)
    requires NoEmptyArray(Dictionary(keys, values))
    ensures WellShaped(Apply(MakeDict, [List(Entries(keys, ms))]))
  {
    var es := Entries(keys, ms);
    forall j | 0 <= j < |es| ensures IsEntryMap(es[j]) {
      var k :| 0 <= k < |ms| && ms[k] != Const(NoneValue) && es[j] == List([Const(Text(keys[k])), ms[k]]);
      assert MapsBack(ms[k], values[k], vals) && NoEmptyArray(values[k]);
    }
  }
}
