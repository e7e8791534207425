/** The maps a model keeps in place of its configuration, the reader that
    turns a map back into a configuration given one value per free
    parameter (`read_map`), and the editor that renumbers a map's
    placeholders when parameters are tied (`edit_map_indices`).

    A map in the program is made of plain Python data: a placeholder string
    `'_parameter_<i>'`, a list of maps, a two-element list `[func, args]`
    whose head is callable, or any other constant. Here each of those is a
    constructor of its own, so a constant can never be mistaken for one of
    the others. */
module Maps {
  import opened Outcomes
  import opened Lists
  import opened Values

  /** The three callables a map applies: `dict`, `make_xarray` and
      `make_complex`. */
  datatype Ctor = MakeDict | MakeXArray | MakeComplex

  datatype Map =
    | Const(value: Value)
    | Param(index: nat)
    | List(items: seq<Map>)
    | Apply(ctor: Ctor, args: seq<Map>)

  /** `IndexError` is what `parameter_values[i]` raises past the end of the
      list and what `make_xarray` raises on an empty array; `BadArguments`
      is any other exception a callable raises on arguments it cannot take. */
  datatype ReadError = IndexError | BadArguments(ctor: Ctor)

  /** Some placeholder occurs in the map. */
  predicate HasParam(m: Map) {
    match m
    case Const(_) => false
    case Param(_) => true
    case List(items) => exists k :: 0 <= k < |items| && HasParam(items[k])
    case Apply(_, args) => exists k :: 0 <= k < |args| && HasParam(args[k])
  }

  /** Every placeholder of the map names a slot below `n`. */
  predicate ParamsBelow(m: Map, n: nat) {
    match m
    case Const(_) => true
    case Param(i) => i < n
    case List(items) => forall k :: 0 <= k < |items| ==> ParamsBelow(items[k], n)
    case Apply(_, args) => forall k :: 0 <= k < |args| ==> ParamsBelow(args[k], n)
  }

  /** `read_map(m, vals)` */
  function Read(m: Map, vals: seq<Value>): Result<Value, ReadError> {
    match m
    case Const(v) => Ok(v)
    case Param(i) => if i < |vals| then Ok(vals[i]) else Err(IndexError)
    case List(items) =>
      var rs := ReadAll(items, vals);
      if rs.Err? then Err(rs.error) else Ok(Sequence(PyList, rs.value))
    case Apply(c, args) =>
      var rs := ReadAll(args, vals);
      if rs.Err? then Err(rs.error) else Construct(c, rs.value)
  }

  /** `[read_map(item, vals) for item in ms]` */
  function ReadAll(ms: seq<Map>, vals: seq<Value>): (rs: Result<seq<Value>, ReadError>)
    ensures rs.Ok? <==> forall k :: 0 <= k < |ms| ==> Read(ms[k], vals).Ok?
    ensures rs.Ok? ==> |rs.value| == |ms| && forall k :: 0 <= k < |ms| ==> rs.value[k] == Read(ms[k], vals).value
  {
    if |ms| == 0 then Ok([])
    else
      var front := ReadAll(ms[..|ms| - 1], vals);
      var last := Read(ms[|ms| - 1], vals);
      if front.Err? then front
      else if last.Err? then Err(last.error)
      else Ok(front.value + [last.value])
  }

  /** The items are read left to right, so the first item that fails
      decides the error. */
  lemma {:induction false} ReadAllFirstError(ms: seq<Map>, vals: seq<Value>)
    requires ReadAll(ms, vals).Err?
    ensures exists k :: (0 <= k < |ms| && Read(ms[k], vals) == Err(ReadAll(ms, vals).error) &&
      forall j :: 0 <= j < k ==> Read(ms[j], vals).Ok?)
  {
    var n := |ms| - 1;
    var front := ReadAll(ms[..n], vals);
    if front.Err? {
      ReadAllFirstError(ms[..n], vals);
      var k :| 0 <= k < n && Read(ms[..n][k], vals) == Err(front.error) &&
        (forall j :: 0 <= j < k ==> Read(ms[..n][j], vals).Ok?);
      assert ms[k] == ms[..n][k];
      assert forall j :: 0 <= j < k ==> ms[j] == ms[..n][j];
    } else {
      assert forall j :: 0 <= j < n ==> ms[j] == ms[..n][j];
      assert Read(ms[n], vals) == Err(ReadAll(ms, vals).error);
    }
  }

  /** Reading one more map after a list of maps. */
  lemma ReadAllSnoc(ms: seq<Map>, m: Map, vals: seq<Value>)
    ensures ReadAll(ms + [m], vals) ==
      if ReadAll(ms, vals).Err? then ReadAll(ms, vals)
      else if Read(m, vals).Err? then Err(Read(m, vals).error)
      else Ok(ReadAll(ms, vals).value + [Read(m, vals).value])
  {
    assert (ms + [m])[..|ms|] == ms;
  }

  /** A callable applied to three argument maps. */
  lemma ReadApplyThree(c: Ctor, a: Map, b: Map, d: Map, vals: seq<Value>)
    ensures Read(Apply(c, [a, b, d]), vals) ==
      if Read(a, vals).Err? then Err(Read(a, vals).error)
      else if Read(b, vals).Err? then Err(Read(b, vals).error)
      else if Read(d, vals).Err? then Err(Read(d, vals).error)
      else Construct(c, [Read(a, vals).value, Read(b, vals).value, Read(d, vals).value])
  {
    ReadAllTwo(a, b, vals);
    assert [a, b, d] == [a, b] + [d];
    ReadAllSnoc([a, b], d, vals);
  }

  lemma ReadAllTwo(a: Map, b: Map, vals: seq<Value>)
    ensures ReadAll([a, b], vals) ==
      if Read(a, vals).Err? then Err(Read(a, vals).error)
      else if Read(b, vals).Err? then Err(Read(b, vals).error)
      else Ok([Read(a, vals).value, Read(b, vals).value])
  {
    ReadAllOne(a, vals);
    assert [a, b] == [a] + [b];
    ReadAllSnoc([a], b, vals);
    if Read(a, vals).Ok? && Read(b, vals).Ok? {
      assert [Read(a, vals).value] + [Read(b, vals).value] == [Read(a, vals).value, Read(b, vals).value];
    }
  }

  lemma ReadAllOne(a: Map, vals: seq<Value>)
    ensures ReadAll([a], vals) == if Read(a, vals).Err? then Err(Read(a, vals).error) else Ok([Read(a, vals).value])
  {
    var ms := [a];
    assert ms[..|ms| - 1] == [] && ms[|ms| - 1] == a;
    assert ReadAll([], vals) == Ok([]);
    if Read(a, vals).Ok? {
      assert [] + [Read(a, vals).value] == [Read(a, vals).value];
    }
  }

  /** A callable applied to a single argument map. */
  lemma ReadApplyOne(c: Ctor, m: Map, vals: seq<Value>)
    ensures Read(Apply(c, [m]), vals) ==
      if Read(m, vals).Err? then Err(Read(m, vals).error) else Construct(c, [Read(m, vals).value])
  {
    ReadAllOne(m, vals);
  }

  /** Each entry is a two-element list whose first element is a string
      key, as `dict(...)` is given it by a map. */
  predicate IsPairList(items: seq<Value>) {
    forall k :: 0 <= k < |items| ==>
      items[k].Sequence? && |items[k].items| == 2 && items[k].items[0].Text?
  }

  /** `dict(pairs)`: a later pair with a key seen before replaces that
      entry's value and keeps its place. */
  function DictFromPairs(pairs: seq<Value>): (d: Value)
    requires IsPairList(pairs)
    ensures d.Dictionary? && |d.keys| == |d.values| && Distinct(d.keys)
    ensures forall key :: key in d.keys <==> exists k :: 0 <= k < |pairs| && pairs[k].items[0].s == key
  {
    if |pairs| == 0 then Dictionary([], [])
    else
      var front := DictFromPairs(pairs[..|pairs| - 1]);
      var key, value := pairs[|pairs| - 1].items[0].s, pairs[|pairs| - 1].items[1];
      assert forall k :: 0 <= k < |pairs| - 1 ==> pairs[..|pairs| - 1][k] == pairs[k];
      if key in front.keys then
        Dictionary(front.keys, front.values[IndexOf(front.keys, key) := value])
      else
        Dictionary(front.keys + [key], front.values + [value])
  }

  /** `dict(pairs + [[key, value]])` where `key` is not among the keys of
      `dict(pairs)`: the new entry goes last. */
  lemma {:induction false} DictFromPairsSnoc(pairs: seq<Value>, key: string, value: Value)
    requires IsPairList(pairs)
    requires key !in DictFromPairs(pairs).keys
    ensures IsPairList(pairs + [Sequence(PyList, [Text(key), value])])
    ensures var d := DictFromPairs(pairs);
      DictFromPairs(pairs + [Sequence(PyList, [Text(key), value])]) == Dictionary(d.keys + [key], d.values + [value])
  {
    var all := pairs + [Sequence(PyList, [Text(key), value])];
    assert all[..|all| - 1] == pairs;
  }

  predicate AllText(items: seq<Value>) {
    forall k :: 0 <= k < |items| ==> items[k].Text?
  }

  function Texts(items: seq<Value>): (ss: seq<string>)
    requires AllText(items)
    ensures |ss| == |items| && forall k :: 0 <= k < |items| ==> items[k] == Text(ss[k])
  {
    seq(|items|, k requires 0 <= k < |items| => items[k].s)
  }

  /** `func(*args)` for the three callables. `make_xarray` looks at
      `values[0]` before anything else, so three arguments whose last is an
      empty list raise `IndexError`, whatever the other two are; `make_complex` gives a complex prior when either part is
      a prior, a complex number when both parts are numbers, and otherwise
      `complex(re, im)` raises. */
  function Construct(c: Ctor, args: seq<Value>): (r: Result<Value, ReadError>)
    ensures r.Err? && r.error == IndexError ==> c == MakeXArray
    ensures c == MakeDict ==> (r.Ok? <==> |args| == 1 && args[0].Sequence? && IsPairList(args[0].items))
    ensures c == MakeDict && r.Ok? ==> r.value == DictFromPairs(args[0].items)
    ensures c == MakeXArray ==> (r.Ok? <==> XArrayArgs(args) && 0 < |args[2].items| == |args[1].items|)
    ensures c == MakeXArray ==>
      (r == Err(IndexError) <==> |args| == 3 && args[2].Sequence? && |args[2].items| == 0)
    ensures c == MakeXArray && r.Ok? ==>
      r.value.LabelledArray? && r.value.dim == args[0].s && r.value.values == args[2].items &&
      |r.value.coords| == |args[1].items| && forall k :: 0 <= k < |args[1].items| ==> args[1].items[k] == Text(r.value.coords[k])
    ensures c == MakeComplex ==>
      (r.Ok? <==> |args| == 2 && (IsPrior(args[0]) || IsPrior(args[1]) || (args[0].Number? && args[1].Number?)))
    ensures c == MakeComplex && r.Ok? ==>
      (r.value.ComplexPrior? || r.value.ComplexNumber?) && r.value.re == args[0] && r.value.im == args[1] &&
      (r.value.ComplexPrior? <==> IsPrior(args[0]) || IsPrior(args[1]))
  {
    match c
    case MakeDict =>
      if |args| == 1 && args[0].Sequence? && IsPairList(args[0].items) then Ok(DictFromPairs(args[0].items))
      else Err(BadArguments(MakeDict))
    case MakeXArray =>
      if |args| == 3 && args[2].Sequence? && |args[2].items| == 0 then Err(IndexError)
      else if XArrayArgs(args) && |args[1].items| == |args[2].items| then
        Ok(LabelledArray(args[0].s, Texts(args[1].items), args[2].items))
      else Err(BadArguments(MakeXArray))
    case MakeComplex =>
      if |args| == 2 && (IsPrior(args[0]) || IsPrior(args[1])) then Ok(ComplexPrior(args[0], args[1]))
      else if |args| == 2 && args[0].Number? && args[1].Number? then Ok(ComplexNumber(args[0], args[1]))
      else Err(BadArguments(MakeComplex))
  }

  /** The argument types `make_xarray(dim_name, keys, values)` accepts: a
      dimension name, a list of string labels and a list of values. */
  predicate XArrayArgs(args: seq<Value>) {
    |args| == 3 && args[0].Text? && args[1].Sequence? && AllText(args[1].items) && args[2].Sequence?
  }

  /** A map reads the same against any longer list of values that agrees
      with the first on the slots the map uses. */
  lemma {:induction false} ReadExtend(m: Map, vals: seq<Value>, more: seq<Value>)
    requires ParamsBelow(m, |vals|)
    requires |vals| <= |more| && vals == more[..|vals|]
    ensures Read(m, vals) == Read(m, more)
  {
    match m
    case Const(_) =>
    case Param(i) =>
      assert vals[i] == more[i];
    case List(items) =>
      ReadAllExtend(items, vals, more);
    case Apply(_, args) =>
      ReadAllExtend(args, vals, more);
  }

  lemma {:induction false} ReadAllExtend(ms: seq<Map>, vals: seq<Value>, more: seq<Value>)
    requires forall k :: 0 <= k < |ms| ==> ParamsBelow(ms[k], |vals|)
    requires |vals| <= |more| && vals == more[..|vals|]
    ensures ReadAll(ms, vals) == ReadAll(ms, more)
  {
    if |ms| > 0 {
      ReadAllExtend(ms[..|ms| - 1], vals, more);
      ReadExtend(ms[|ms| - 1], vals, more);
    }
  }

  /** A map whose placeholders are below `n` has them below any larger
      bound. */
  lemma {:induction false} ParamsBelowMono(m: Map, n: nat, n': nat)
    requires ParamsBelow(m, n) && n <= n'
    ensures ParamsBelow(m, n')
  {
    match m
    case Const(_) =>
    case Param(_) =>
    case List(items) =>
      forall k | 0 <= k < |items| ensures ParamsBelow(items[k], n') {
        ParamsBelowMono(items[k], n, n');
      }
    case Apply(_, args) =>
      forall k | 0 <= k < |args| ensures ParamsBelow(args[k], n') {
        ParamsBelowMono(args[k], n, n');
      }
  }

  /** The shapes the model's builder produces: a dictionary is applied to
      one list of `[key, map]` pairs, an array to a constant dimension name,
      a list of constant coordinate labels and a non-empty list of maps of
      the same length, a complex number to two parts that are each a
      placeholder or a numeric constant. */
  predicate WellShaped(m: Map) {
    match m
    case Const(_) => true
    case Param(_) => true
    case List(items) => forall k :: 0 <= k < |items| ==> WellShaped(items[k])
    case Apply(MakeDict, args) =>
      |args| == 1 && args[0].List? &&
      forall k :: 0 <= k < |args[0].items| ==> IsEntryMap(args[0].items[k])
    case Apply(MakeXArray, args) =>
      |args| == 3 && args[0].Const? && args[0].value.Text? &&
      args[1].List? && (forall k :: 0 <= k < |args[1].items| ==> IsLabelMap(args[1].items[k])) &&
      args[2].List? && 0 < |args[2].items| == |args[1].items| &&
      forall k :: 0 <= k < |args[2].items| ==> WellShaped(args[2].items[k])
    case Apply(MakeComplex, args) =>
      |args| == 2 && IsPartMap(args[0]) && IsPartMap(args[1])
  }

  /** The map of a part of a complex prior. */
  predicate IsPartMap(m: Map) {
    m.Param? || (m.Const? && m.value.Number?)
  }

  /** `[key, map]` inside a dictionary's argument list. */
  predicate IsEntryMap(e: Map) {
    e.List? && |e.items| == 2 && IsLabelMap(e.items[0]) && WellShaped(e.items[1])
  }

  predicate IsLabelMap(e: Map) {
    e.Const? && e.value.Text?
  }

  /** The values `read_map` is handed in practice: numbers (a fit's
      parameter values) or priors (the registry itself). */
  predicate NumbersOrPriors(vals: seq<Value>) {
    forall k :: 0 <= k < |vals| ==> vals[k].Number? || IsPrior(vals[k])
  }

  /** For the maps the builder produces, read against numbers or priors,
      reading fails exactly when some placeholder names a slot past the end
      of the values, and then it fails with `IndexError`. */
  lemma {:induction false} ReadSucceeds(m: Map, vals: seq<Value>)
    requires WellShaped(m) && NumbersOrPriors(vals)
    ensures Read(m, vals).Ok? <==> ParamsBelow(m, |vals|)
    ensures !ParamsBelow(m, |vals|) ==> Read(m, vals) == Err(IndexError)
    decreases m, 1
  {
    match m
    case Const(_) =>
    case Param(_) =>
    case List(items) =>
      forall k | 0 <= k < |items|
        ensures Read(items[k], vals).Ok? <==> ParamsBelow(items[k], |vals|)
        ensures Read(items[k], vals).Err? ==> Read(items[k], vals).error == IndexError
      {
        ReadSucceeds(items[k], vals);
      }
      ReadAllIndexError(items, vals);
    case Apply(MakeDict, args) =>
      ReadDictSucceeds(m, vals);
    case Apply(MakeXArray, args) =>
      ReadXArraySucceeds(m, vals);
    case Apply(MakeComplex, args) =>
      ReadAllIndexError(args, vals);
  }

  /** When every item can only fail with `IndexError`, so can the list. */
  lemma {:induction false} ReadAllIndexError(ms: seq<Map>, vals: seq<Value>)
    requires forall k :: 0 <= k < |ms| ==> Read(ms[k], vals).Err? ==> Read(ms[k], vals).error == IndexError
    ensures ReadAll(ms, vals).Err? ==> ReadAll(ms, vals).error == IndexError
  {
    if ReadAll(ms, vals).Err? {
      ReadAllFirstError(ms, vals);
    }
  }

  lemma {:induction false} ReadDictSucceeds(m: Map, vals: seq<Value>)
    requires m.Apply? && m.ctor == MakeDict && WellShaped(m) && NumbersOrPriors(vals)
    ensures Read(m, vals).Ok? <==> ParamsBelow(m, |vals|)
    ensures !ParamsBelow(m, |vals|) ==> Read(m, vals) == Err(IndexError)
    decreases m, 0
  {
    var entries := m.args[0].items;
    forall k | 0 <= k < |entries|
      ensures Read(entries[k], vals).Ok? <==> ParamsBelow(entries[k], |vals|)
      ensures Read(entries[k], vals).Err? ==> Read(entries[k], vals).error == IndexError
      ensures Read(entries[k], vals).Ok? ==> IsPairList([Read(entries[k], vals).value])
    {
      var e := entries[k];
      ReadSucceeds(e.items[1], vals);
      assert e.items == [e.items[0], e.items[1]];
      ReadAllTwo(e.items[0], e.items[1], vals);
      assert ParamsBelow(e, |vals|) <==> ParamsBelow(e.items[1], |vals|);
    }
    ReadAllIndexError(entries, vals);
    var rs := ReadAll(entries, vals);
    if rs.Ok? {
      assert IsPairList(rs.value) by {
        forall k | 0 <= k < |rs.value| ensures IsPairList([rs.value[k]]) {
        }
      }
    }
    assert m.args == [m.args[0]];
    ReadApplyOne(MakeDict, m.args[0], vals);
    assert ParamsBelow(m, |vals|) <==> ParamsBelow(m.args[0], |vals|);
  }

  lemma {:induction false} ReadXArraySucceeds(m: Map, vals: seq<Value>)
    requires m.Apply? && m.ctor == MakeXArray && WellShaped(m) && NumbersOrPriors(vals)
    ensures Read(m, vals).Ok? <==> ParamsBelow(m, |vals|)
    ensures !ParamsBelow(m, |vals|) ==> Read(m, vals) == Err(IndexError)
    decreases m, 0
  {
    var args := m.args;
    var labels, values := args[1].items, args[2].items;
    forall k | 0 <= k < |values|
      ensures Read(values[k], vals).Ok? <==> ParamsBelow(values[k], |vals|)
      ensures Read(values[k], vals).Err? ==> Read(values[k], vals).error == IndexError
    {
      ReadSucceeds(values[k], vals);
    }
    ReadAllIndexError(values, vals);
    LabelsRead(labels, vals);
    assert args == [args[0], args[1], args[2]];
    ReadApplyThree(MakeXArray, args[0], args[1], args[2], vals);
    assert ParamsBelow(m, |vals|) <==> ParamsBelow(args[2], |vals|);
  }

  /** Constant labels read back as themselves, whatever the values. */
  lemma {:induction false} LabelsRead(labels: seq<Map>, vals: seq<Value>)
    requires forall k :: 0 <= k < |labels| ==> IsLabelMap(labels[k])
    ensures ReadAll(labels, vals).Ok? && AllText(ReadAll(labels, vals).value)
    ensures forall k :: 0 <= k < |labels| ==> ParamsBelow(labels[k], |vals|)
  {
  }

  /** The new slot of placeholder `i` when the slots `indices` are tied:
      every tied slot becomes the lowest of them, a slot below them all keeps
      its number, and any other slot moves down by the number of tied slots
      below it other than the lowest, which are the ones deleted. */
  function Renumber(i: nat, indices: seq<nat>): (r: nat)
    requires |indices| > 0 && StrictlyIncreasing(indices)
    ensures i in indices ==> r == indices[0]
    ensures i !in indices && i < indices[0] ==> r == i
    ensures i !in indices && indices[0] < i ==> r + CountBelow(indices[1..], i) == i
  {
    if i in indices then indices[0]
    else if i < indices[0] then i
    else
      CountBelowFront(indices, i);
      CountBelowBound(indices[1..], i);
      i - (CountBelow(indices, i) - 1)
  }

  /** `edit_map_indices(m, indices)` for a strictly increasing list of
      indices (its one caller sorts them first). With no indices, a map
      without placeholders is left alone; one with a placeholder would
      raise, which the caller checks for. */
  function EditMapIndices(m: Map, indices: seq<nat>): (r: Map)
    requires StrictlyIncreasing(indices)
    requires |indices| > 0 || !HasParam(m)
  {
    match m
    case Const(_) => m
    case Param(i) => Param(Renumber(i, indices))
    case List(items) => List(seq(|items|, k requires 0 <= k < |items| => EditMapIndices(items[k], indices)))
    case Apply(c, args) => Apply(c, seq(|args|, k requires 0 <= k < |args| => EditMapIndices(args[k], indices)))
  }

  /** With no indices, editing a map without placeholders rebuilds the same
      map. */
  lemma {:induction false} EditNoParams(m: Map)
    requires !HasParam(m)
    ensures EditMapIndices(m, []) == m
  {
    match m
    case Const(_) =>
    case Param(_) =>
    case List(items) =>
      forall k | 0 <= k < |items| ensures EditMapIndices(items[k], []) == items[k] {
        EditNoParams(items[k]);
      }
    case Apply(_, args) =>
      forall k | 0 <= k < |args| ensures EditMapIndices(args[k], []) == args[k] {
        EditNoParams(args[k]);
      }
  }

  /** The map with every placeholder replaced by slot 0: what is left of
      it once the slot numbers are ignored. */
  function Erase(m: Map): Map {
    match m
    case Const(_) => m
    case Param(_) => Param(0)
    case List(items) => List(seq(|items|, k requires 0 <= k < |items| => Erase(items[k])))
    case Apply(c, args) => Apply(c, seq(|args|, k requires 0 <= k < |args| => Erase(args[k])))
  }

  /** The map's placeholders, left to right. */
  function Params(m: Map): seq<nat> {
    match m
    case Const(_) => []
    case Param(i) => [i]
    case List(items) => ParamsAll(items)
    case Apply(_, args) => ParamsAll(args)
  }

  function ParamsAll(ms: seq<Map>): seq<nat> {
    if |ms| == 0 then [] else ParamsAll(ms[..|ms| - 1]) + Params(ms[|ms| - 1])
  }

  function RenumberAll(ps: seq<nat>, indices: seq<nat>): (rs: seq<nat>)
    requires |indices| > 0 && StrictlyIncreasing(indices)
    ensures |rs| == |ps| && forall k :: 0 <= k < |ps| ==> rs[k] == Renumber(ps[k], indices)
  {
    seq(|ps|, k requires 0 <= k < |ps| => Renumber(ps[k], indices))
  }

  /** Editing changes nothing but the placeholders' slot numbers, and
      renumbers each of them as `Renumber` says, in place. */
  lemma {:induction false} EditRenumbers(m: Map, indices: seq<nat>)
    requires |indices| > 0 && StrictlyIncreasing(indices)
    ensures Erase(EditMapIndices(m, indices)) == Erase(m)
    ensures Params(EditMapIndices(m, indices)) == RenumberAll(Params(m), indices)
  {
    match m
    case Const(_) =>
    case Param(_) =>
    case List(items) =>
      var edited := seq(|items|, k requires 0 <= k < |items| => EditMapIndices(items[k], indices));
      assert EditMapIndices(m, indices) == List(edited);
      EditAllRenumbers(items, edited, indices);
    case Apply(c, args) =>
      var edited := seq(|args|, k requires 0 <= k < |args| => EditMapIndices(args[k], indices));
      assert EditMapIndices(m, indices) == Apply(c, edited);
      EditAllRenumbers(args, edited, indices);
  }

  lemma {:induction false} EditAllRenumbers(ms: seq<Map>, edited: seq<Map>, indices: seq<nat>)
    requires |indices| > 0 && StrictlyIncreasing(indices)
    requires |edited| == |ms| && forall k :: 0 <= k < |ms| ==> edited[k] == EditMapIndices(ms[k], indices)
    ensures forall k :: 0 <= k < |ms| ==> Erase(edited[k]) == Erase(ms[k])
    ensures ParamsAll(edited) == RenumberAll(ParamsAll(ms), indices)
  {
    if |ms| > 0 {
      var n := |ms| - 1;
      EditAllRenumbers(ms[..n], edited[..n], indices);
      EditRenumbers(ms[n], indices);
      forall k | 0 <= k < n ensures Erase(edited[k]) == Erase(ms[k]) {
        assert edited[..n][k] == edited[k] && ms[..n][k] == ms[k];
      }
      assert RenumberAll(ParamsAll(ms), indices)
        == RenumberAll(ParamsAll(ms[..n]), indices) + RenumberAll(Params(ms[n]), indices);
    }
  }

  /** Tying slots whose values agree and deleting every tied slot but the
      lowest from the values leaves what each map reads unchanged. */
  lemma {:induction false} ReadAfterTie(m: Map, vals: seq<Value>, indices: seq<nat>)
    requires |indices| > 0 && StrictlyIncreasing(indices)
    requires indices[|indices| - 1] < |vals|
    requires forall k :: 0 <= k < |indices| ==> vals[indices[k]] == vals[indices[0]]
    ensures Read(EditMapIndices(m, indices), DeleteDescending(vals, indices[1..])) == Read(m, vals)
  {
    match m
    case Const(_) =>
    case Param(i) =>
      ReadParamAfterTie(i, vals, indices);
    case List(items) =>
      var edited := seq(|items|, k requires 0 <= k < |items| => EditMapIndices(items[k], indices));
      assert EditMapIndices(m, indices) == List(edited);
      ReadAllAfterTie(items, edited, vals, indices);
    case Apply(c, args) =>
      var edited := seq(|args|, k requires 0 <= k < |args| => EditMapIndices(args[k], indices));
      assert EditMapIndices(m, indices) == Apply(c, edited);
      ReadAllAfterTie(args, edited, vals, indices);
  }

  /** The placeholder case of `ReadAfterTie`. */
  lemma {:induction false} ReadParamAfterTie(i: nat, vals: seq<Value>, indices: seq<nat>)
    requires |indices| > 0 && StrictlyIncreasing(indices)
    requires indices[|indices| - 1] < |vals|
    requires forall k :: 0 <= k < |indices| ==> vals[indices[k]] == vals[indices[0]]
    ensures Read(Param(Renumber(i, indices)), DeleteDescending(vals, indices[1..])) == Read(Param(i), vals)
  {
    if i < |vals| {
      var j := if i in indices then indices[0] else i;
      if i in indices {
        var t :| 0 <= t < |indices| && indices[t] == i;
        IncreasingFloor(indices, t);
      }
      assert j < |vals| && vals[j] == vals[i];
      RenumberFrom(i, j, indices);
      DeleteDescendingAt(vals, indices[1..], j);
    } else {
      var drop := indices[1..];
      assert i !in indices && indices[0] < i;
      CountBelowAll(drop, i);
      assert |DeleteDescending(vals, drop)| == |vals| - |drop|;
    }
  }

  /** A tied placeholder first moves to the lowest tied slot, and any slot
      then moves down by the deleted slots below it. */
  lemma {:induction false} RenumberFrom(i: nat, j: nat, indices: seq<nat>)
    requires |indices| > 0 && StrictlyIncreasing(indices)
    requires j == if i in indices then indices[0] else i
    ensures j !in indices[1..]
    ensures CountBelow(indices[1..], j) <= j && Renumber(i, indices) == j - CountBelow(indices[1..], j)
  {
    var drop := indices[1..];
    assert indices[0] !in drop;
    if j <= indices[0] {
      assert forall k :: 0 <= k < |drop| ==> j <= drop[k] by {
        forall k | 0 <= k < |drop| ensures j <= drop[k] {
          assert drop[k] == indices[k + 1];
        }
      }
      CountBelowNone(drop, j);
    } else {
      assert i !in indices && indices[0] < i;
      assert Renumber(i, indices) + CountBelow(drop, i) == i;
    }
  }

  lemma {:induction false} ReadAllAfterTie(ms: seq<Map>, edited: seq<Map>, vals: seq<Value>, indices: seq<nat>)
    requires |indices| > 0 && StrictlyIncreasing(indices)
    requires indices[|indices| - 1] < |vals|
    requires forall k :: 0 <= k < |indices| ==> vals[indices[k]] == vals[indices[0]]
    requires |edited| == |ms| && forall k :: 0 <= k < |ms| ==> edited[k] == EditMapIndices(ms[k], indices)
    ensures ReadAll(edited, DeleteDescending(vals, indices[1..])) == ReadAll(ms, vals)
  {
    if |ms| > 0 {
      var n := |ms| - 1;
      ReadAllAfterTie(ms[..n], edited[..n], vals, indices);
      ReadAfterTie(ms[n], vals, indices);
    }
  }

  /** After a tie of slots below `n`, the edited map's placeholders stay
      below the number of slots left. */
  lemma {:induction false} EditParamsBelow(m: Map, indices: seq<nat>, n: nat)
    requires |indices| > 0 && StrictlyIncreasing(indices)
    requires |indices| <= n && indices[|indices| - 1] < n
    requires ParamsBelow(m, n)
    ensures ParamsBelow(EditMapIndices(m, indices), n - (|indices| - 1))
  {
    var drop := indices[1..];
    match m
    case Const(_) =>
    case Param(i) =>
      var slots := seq(n, k => k);
      IncreasingFloor(indices, |indices| - 1);
      assert indices[0] !in drop;
      var j := if i in indices then indices[0] else i;
      if j < indices[0] {
        CountBelowNone(drop, j);
      }
      DeleteDescendingAt(slots, drop, j);
    case List(items) =>
      forall k | 0 <= k < |items| ensures ParamsBelow(EditMapIndices(items[k], indices), n - (|indices| - 1)) {
        EditParamsBelow(items[k], indices, n);
      }
    case Apply(_, args) =>
      forall k | 0 <= k < |args| ensures ParamsBelow(EditMapIndices(args[k], indices), n - (|indices| - 1)) {
        EditParamsBelow(args[k], indices, n);
      }
  }

  /** Editing keeps the shapes the builder produces. */
  lemma {:induction false} EditWellShaped(m: Map, indices: seq<nat>)
    requires |indices| > 0 && StrictlyIncreasing(indices)
    requires WellShaped(m)
    ensures WellShaped(EditMapIndices(m, indices))
  {
    match m
    case Const(_) =>
    case Param(_) =>
    case List(items) =>
      forall k | 0 <= k < |items| ensures WellShaped(EditMapIndices(items[k], indices)) {
        EditWellShaped(items[k], indices);
      }
    case Apply(MakeDict, args) =>
      var entries := args[0].items;
      forall k | 0 <= k < |entries| ensures IsEntryMap(EditMapIndices(entries[k], indices)) {
        EditWellShaped(entries[k].items[1], indices);
      }
    case Apply(MakeXArray, args) =>
      var labels, values := args[1].items, args[2].items;
      assert forall k :: 0 <= k < |labels| ==> EditMapIndices(labels[k], indices) == labels[k];
      forall k | 0 <= k < |values| ensures WellShaped(EditMapIndices(values[k], indices)) {
        EditWellShaped(values[k], indices);
      }
    case Apply(MakeComplex, args) =>
  }

  /** Five slots with slots 1 and 3 tied: slot 3 joins slot 1, slot 2 keeps
      its number since no deleted slot lies below it, and slot 4 moves down
      by one. */
  lemma RenumberExample()
    ensures [Renumber(0, [1, 3]), Renumber(1, [1, 3]), Renumber(2, [1, 3]), Renumber(3, [1, 3]), Renumber(4, [1, 3])]
      == [0, 1, 2, 1, 3]
  {
    assert [1, 3][1..] == [3];
  }
}
