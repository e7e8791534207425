/** The nested configurations a model is built from, and the values its
    maps read back: constants, free parameters (`Prior` objects), lists,
    tuples and arrays, dictionaries, labelled one-axis arrays (`xarray`)
    and complex numbers whose parts may be free. */
module Values {
  import opened Outcomes
  import opened Lists

  /** Everything about a prior except its name: the distribution family,
      its arguments and its guess. `p.renamed(None) == q.renamed(None)`
      holds exactly when these agree. */
  datatype Distribution = Distribution(family: string, arguments: seq<real>, guess: real)

  /** A free parameter. Priors are objects: the registry tells them apart
      by identity (`is`), so two priors built with the same arguments are
      still two parameters. */
  class Prior {
    const name: Option<string>
    const distribution: Distribution

    constructor (name: Option<string>, distribution: Distribution)
      ensures this.name == name && this.distribution == distribution
    {
      this.name := name;
      this.distribution := distribution;
    }
  }

  /** `p.renamed(None) == q.renamed(None)` */
  predicate EqualIgnoringName(p: Prior, q: Prior) {
    p.distribution == q.distribution
  }

  /** Python lists, tuples and numpy arrays: the builder treats all three
      alike, and the reader rebuilds each of them as a list. */
  datatype SeqKind = PyList | PyTuple | NdArray

  datatype Value =
    | NoneValue
    | Number(x: real)
    | Text(s: string)
    | ComplexNumber(re: Value, im: Value)
    | PriorRef(prior: Prior)
    | ComplexPrior(re: Value, im: Value)
    | Sequence(kind: SeqKind, items: seq<Value>)
    | Dictionary(keys: seq<string>, values: seq<Value>)
    | LabelledArray(dim: string, coords: seq<string>, values: seq<Value>)

  /** `isinstance(v, Prior)`; a `ComplexPrior` is a `Prior` too. */
  predicate IsPrior(v: Value) {
    v.PriorRef? || v.ComplexPrior?
  }

  /** A part of a complex prior: a real number or a prior. `complex(re,
      im)` takes nothing else, so a part of any other kind would make the
      map fail to read. */
  predicate IsComplexPart(v: Value) {
    v.Number? || v.PriorRef?
  }

  /** What the Python types guarantee: a dictionary has one value per key
      and no key twice; a labelled array has one coordinate label per entry
      along its axis; a complex prior has two parts that are numbers or
      priors; a Python `complex` has two real parts. */
  predicate WellFormed(v: Value) {
    match v
    case ComplexPrior(re, im) => IsComplexPart(re) && IsComplexPart(im)
    case ComplexNumber(re, im) => re.Number? && im.Number?
    case Sequence(_, items) => forall k :: 0 <= k < |items| ==> WellFormed(items[k])
    case Dictionary(keys, values) =>
      |keys| == |values| && Distinct(keys) && forall k :: 0 <= k < |values| ==> WellFormed(values[k])
    case LabelledArray(_, coords, values) =>
      |coords| == |values| && forall k :: 0 <= k < |values| ==> WellFormed(values[k])
    case _ => true
  }

  /** No labelled array in `v` is empty along its axis (`make_xarray`
      looks at `values[0]`). */
  predicate NoEmptyArray(v: Value) {
    match v
    case ComplexPrior(re, im) => NoEmptyArray(re) && NoEmptyArray(im)
    case Sequence(_, items) => forall k :: 0 <= k < |items| ==> NoEmptyArray(items[k])
    case Dictionary(_, values) => forall k :: 0 <= k < |values| ==> NoEmptyArray(values[k])
    case LabelledArray(_, _, values) =>
      |values| > 0 && forall k :: 0 <= k < |values| ==> NoEmptyArray(values[k])
    case _ => true
  }

  /** The shape in which a configuration comes back when its map is read
      against the registered priors: tuples and arrays come back as lists,
      dictionary entries whose value is `None` are gone, and a complex prior
      neither of whose parts is a prior comes back as a plain complex
      number. */
  function Normalize(v: Value): (r: Value)
    requires WellFormed(v)
    ensures r == NoneValue <==> v == NoneValue
  {
    match v
    case ComplexPrior(re, im) =>
      var re', im' := Normalize(re), Normalize(im);
      if IsPrior(re') || IsPrior(im') then ComplexPrior(re', im') else ComplexNumber(re', im')
    case Sequence(_, items) =>
      Sequence(PyList, seq(|items|, k requires 0 <= k < |items| => Normalize(items[k])))
    case Dictionary(keys, values) =>
      var kept := KeepNonNone(keys, seq(|values| , k requires 0 <= k < |values| => Normalize(values[k])));
      Dictionary(kept.0, kept.1)
    case LabelledArray(dim, coords, values) =>
      LabelledArray(dim, coords, seq(|values|, k requires 0 <= k < |values| => Normalize(values[k])))
    case _ => v
  }

  /** The dictionary entries whose value is not `None`, in order: as many
      as there are such values (`KeepNonNoneKeeps` places each of them). */
  function KeepNonNone(keys: seq<string>, values: seq<Value>): (kept: (seq<string>, seq<Value>))
    requires |keys| == |values|
    ensures |kept.0| == |kept.1| == CountNot(values, NoneValue)
    ensures NoneValue !in kept.1
    ensures forall key :: key in kept.0 ==> key in keys
    ensures Distinct(keys) ==> Distinct(kept.0)
  {
    if |keys| == 0 then ([], [])
    else
      var front := KeepNonNone(keys[..|keys| - 1], values[..|values| - 1]);
      if values[|values| - 1] == NoneValue then front
      else
        assert Distinct(keys) ==> keys[|keys| - 1] !in keys[..|keys| - 1];
        (front.0 + [keys[|keys| - 1]], front.1 + [values[|values| - 1]])
  }

  /** Every entry whose value is not `None` is kept, with its own key, after
      exactly the kept entries that come before it. */
  lemma {:induction false} KeepNonNoneKeeps(keys: seq<string>, values: seq<Value>)
    requires |keys| == |values|
    ensures forall k :: 0 <= k < |values| && values[k] != NoneValue ==>
      CountNot(values[..k], NoneValue) < |KeepNonNone(keys, values).0| &&
      KeepNonNone(keys, values).0[CountNot(values[..k], NoneValue)] == keys[k] &&
      KeepNonNone(keys, values).1[CountNot(values[..k], NoneValue)] == values[k]
  {
    if |keys| > 0 {
      var n := |keys| - 1;
      KeepNonNoneKeeps(keys[..n], values[..n]);
      var kept := KeepNonNone(keys, values);
      var front := KeepNonNone(keys[..n], values[..n]);
      assert kept.0[..|front.0|] == front.0 && kept.1[..|front.1|] == front.1;
      forall k | 0 <= k < |values| && values[k] != NoneValue
        ensures CountNot(values[..k], NoneValue) < |kept.0|
        ensures kept.0[CountNot(values[..k], NoneValue)] == keys[k]
        ensures kept.1[CountNot(values[..k], NoneValue)] == values[k]
      {
        if k < n {
          assert values[..n][..k] == values[..k];
          assert values[..n][k] == values[k] && keys[..n][k] == keys[k];
        } else {
          assert values[..k] == values[..n];
        }
      }
    }
  }

  /** A measure that every component of a value stays below, used to show
      that the builder's recursion ends. */
  function Size(v: Value): (n: nat)
    ensures n >= 1
  {
    match v
    case ComplexNumber(re, im) => 1 + Size(re) + Size(im)
    case ComplexPrior(re, im) => 1 + Size(re) + Size(im)
    case Sequence(_, items) => 1 + SizeAll(items)
    case Dictionary(_, values) => 1 + SizeAll(values)
    case LabelledArray(_, _, values) => 1 + SizeAll(values)
    case _ => 1
  }

  function SizeAll(vs: seq<Value>): nat {
    if |vs| == 0 then 0 else SizeAll(vs[..|vs| - 1]) + Size(vs[|vs| - 1])
  }

  lemma {:induction false} SizeAllBound(vs: seq<Value>, k: nat)
    requires k < |vs|
    ensures Size(vs[k]) <= SizeAll(vs)
  {
    if k < |vs| - 1 {
      SizeAllBound(vs[..|vs| - 1], k);
    }
  }

  /** The priors `read_map` is handed when it rebuilds the model's own
      configuration: `self._parameters`. */
  function PriorValues(ps: seq<Prior>): (vs: seq<Value>)
    ensures |vs| == |ps|
    ensures forall k :: 0 <= k < |ps| ==> vs[k] == PriorRef(ps[k])
  {
    seq(|ps|, k requires 0 <= k < |ps| => PriorRef(ps[k]))
  }
}
