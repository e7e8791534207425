/** What building a model does to the registry, stated without the maps:
    the priors a configuration holds, met in the order the builder walks
    it, each with the dotted path under which it is met; and the effect of
    registering them one after another on the two parallel lists of
    priors and names. */
module Registry {
  import opened Outcomes
  import opened Lists
  import opened PyStrings
  import opened Values
  import opened Naming

  /** A prior met by the builder, and the path it is met under. */
  datatype Occurrence = Occurrence(prior: Prior, path: string)

  /** The name a new prior asks for: its own name when it has one,
      otherwise its path. */
  function Candidate(occ: Occurrence): string {
    if occ.prior.name.Some? then occ.prior.name.value else occ.path
  }

  /** The labels `enumerate` gives the items of a list: `"0"`, `"1"`, … */
  function Labels(n: nat): (ls: seq<string>)
    ensures |ls| == n && forall k :: 0 <= k < n ==> ls[k] == NatToString(k)
  {
    seq(n, k requires 0 <= k < n => NatToString(k))
  }

  /** The priors in `v`, in the order `_convert_to_map(v, name)` meets
      them: list items under `name.0`, `name.1`, …; dictionary values
      under `name.key`, or `key` at the top level; array entries under
      `name.coord`; the parts of a complex prior under `name.real` and
      `name.imag`. */
  function Occurrences(v: Value, name: string): seq<Occurrence>
    requires WellFormed(v)
    decreases Size(v), 1
  {
    match v
    case Sequence(_, items) => OccurrencesAll(name + ".", Labels(|items|), items)
    case Dictionary(keys, values) => OccurrencesAll(if |name| > 0 then name + "." else "", keys, values)
    case LabelledArray(_, coords, values) => OccurrencesAll(name + ".", coords, values)
    case ComplexPrior(re, im) =>
      assert [re, im][..1] == [re] && [re][..0] == [];
      assert SizeAll([re]) == Size(re);
      assert SizeAll([re, im]) == Size(re) + Size(im);
      OccurrencesAll(name + ".", ["real", "imag"], [re, im])
    case PriorRef(p) => [Occurrence(p, name)]
    case _ => []
  }

  /** The priors of `values` in order, the `k`-th value's under the name
      `prefix + labels[k]`. */
  function OccurrencesAll(prefix: string, labels: seq<string>, values: seq<Value>): seq<Occurrence>
    requires |labels| == |values| && forall k :: 0 <= k < |values| ==> WellFormed(values[k])
    decreases SizeAll(values), 2
  {
    if |values| == 0 then []
    else
      var n := |values| - 1;
      SizeAllBound(values, n);
      assert forall k :: 0 <= k < n ==> values[..n][k] == values[k];
      OccurrencesAll(prefix, labels[..n], values[..n]) + Occurrences(values[n], prefix + labels[n])
  }

  /** The priors of one more value follow those of the values before it. */
  lemma {:induction false} OccurrencesAllSnoc(prefix: string, labels: seq<string>, values: seq<Value>, i: nat)
    requires |labels| == |values| && i < |values| && forall k :: 0 <= k < |values| ==> WellFormed(values[k])
    ensures OccurrencesAll(prefix, labels[..i + 1], values[..i + 1]) ==
      OccurrencesAll(prefix, labels[..i], values[..i]) + Occurrences(values[i], prefix + labels[i])
  {
    assert labels[..i + 1][..i] == labels[..i] && values[..i + 1][..i] == values[..i];
  }

  /** Registering the priors of the first `i` values and then those of
      value `i` is registering the priors of the first `i + 1` values. */
  lemma {:induction false} RegisterAllSnoc(ps: seq<Prior>, ns: seq<string>, prefix: string, labels: seq<string>, values: seq<Value>, i: nat)
    requires |ps| == |ns| && |labels| == |values| && i < |values|
    requires forall k :: 0 <= k < |values| ==> WellFormed(values[k])
    ensures var mid := RegisterAll(ps, ns, OccurrencesAll(prefix, labels[..i], values[..i]));
      RegisterAll(mid.0, mid.1, Occurrences(values[i], prefix + labels[i])) ==
      RegisterAll(ps, ns, OccurrencesAll(prefix, labels[..i + 1], values[..i + 1]))
  {
    OccurrencesAllSnoc(prefix, labels, values, i);
    RegisterAllAppend(ps, ns, OccurrencesAll(prefix, labels[..i], values[..i]), Occurrences(values[i], prefix + labels[i]));
  }

  /** `_check_for_ties(p, path)` on the priors `ps` and names `ns`: a prior
      registered before keeps its slot and the shared form of its name; a
      new one is appended under the first free name its candidate leads
      to. */
  ghost function Register(ps: seq<Prior>, ns: seq<string>, occ: Occurrence): (r: (seq<Prior>, seq<string>))
    requires |ps| == |ns|
    ensures |r.0| == |r.1|
  {
    if occ.prior in ps then
      var i := IndexOf(ps, occ.prior);
      (ps, ns[i := SharedName(ns, i)])
    else
      (ps + [occ.prior], ns + [FreeName(ns, Candidate(occ))])
  }

  /** What one registration does: a prior seen before keeps its slot and
      only its name may be shortened, to the text after its first colon
      when no parameter has that name; a new prior takes the next slot
      under the name the naming loop chooses for its candidate, and every
      other slot is left alone. */
  lemma {:induction false} RegisterIs(ps: seq<Prior>, ns: seq<string>, occ: Occurrence)
    requires |ps| == |ns|
    ensures var r := Register(ps, ns, occ);
      (occ.prior in ps ==>
        r.0 == ps && var i := IndexOf(ps, occ.prior);
        |r.1| == |ns| && (forall k :: 0 <= k < |ns| && k != i ==> r.1[k] == ns[k]) &&
        (AfterColon(ns[i]) !in ns ==> r.1[i] == AfterColon(ns[i])) &&
        (AfterColon(ns[i]) in ns ==> r.1[i] == ns[i])) &&
      (occ.prior !in ps ==>
        r.0 == ps + [occ.prior] && r.1 == ns + [FreeName(ns, Candidate(occ))] &&
        ChosenName(ns, Candidate(occ), r.1[|ns|]))
  {
  }

  /** Registering the priors of `occs` one after another. */
  ghost function RegisterAll(ps: seq<Prior>, ns: seq<string>, occs: seq<Occurrence>): (r: (seq<Prior>, seq<string>))
    requires |ps| == |ns|
    ensures |r.0| == |r.1|
  {
    if |occs| == 0 then (ps, ns)
    else
      var front := RegisterAll(ps, ns, occs[..|occs| - 1]);
      Register(front.0, front.1, occs[|occs| - 1])
  }

  /** Registering one prior is registering the list holding it. */
  lemma {:induction false} RegisterAllOne(ps: seq<Prior>, ns: seq<string>, occ: Occurrence)
    requires |ps| == |ns|
    ensures RegisterAll(ps, ns, [occ]) == Register(ps, ns, occ)
  {
    assert [occ][..0] == [];
  }

  /** Registering `a` and then `b` is registering `a + b`. */
  lemma {:induction false} RegisterAllAppend(ps: seq<Prior>, ns: seq<string>, a: seq<Occurrence>, b: seq<Occurrence>)
    requires |ps| == |ns|
    ensures var mid := RegisterAll(ps, ns, a);
      RegisterAll(ps, ns, a + b) == RegisterAll(mid.0, mid.1, b)
  {
    if |b| > 0 {
      var n := |b| - 1;
      RegisterAllAppend(ps, ns, a, b[..n]);
      assert (a + b)[..|a + b| - 1] == a + b[..n];
    } else {
      assert a + b == a;
    }
  }

  /** One registration keeps every earlier prior in its slot and every
      earlier name or its shared form. */
  lemma {:induction false} RegisterKeeps(ps: seq<Prior>, ns: seq<string>, occ: Occurrence)
    requires |ps| == |ns|
    ensures var r := Register(ps, ns, occ);
      |ps| <= |r.0| && r.0[..|ps|] == ps && occ.prior in r.0 &&
      forall k :: 0 <= k < |ns| ==> Stripped(ns[k], r.1[k])
  {
    var r := Register(ps, ns, occ);
    if occ.prior in ps {
      var i := IndexOf(ps, occ.prior);
      assert Stripped(ns[i], AfterColon(ns[i]));
    }
  }

  /** Registering a run of priors keeps every earlier prior in its slot. */
  lemma {:induction false} RegisterAllKeeps(ps: seq<Prior>, ns: seq<string>, occs: seq<Occurrence>)
    requires |ps| == |ns|
    ensures |ps| <= |RegisterAll(ps, ns, occs).0| && RegisterAll(ps, ns, occs).0[..|ps|] == ps
  {
    if |occs| > 0 {
      var n := |occs| - 1;
      var front := RegisterAll(ps, ns, occs[..n]);
      RegisterAllKeeps(ps, ns, occs[..n]);
      RegisterKeeps(front.0, front.1, occs[n]);
      var r := Register(front.0, front.1, occs[n]);
      assert r.0[..|ps|] == front.0[..|ps|];
    }
  }

  /** Every prior of a run is registered once the run is. */
  lemma {:induction false} RegisterAllRegisters(ps: seq<Prior>, ns: seq<string>, occs: seq<Occurrence>)
    requires |ps| == |ns|
    ensures forall j :: 0 <= j < |occs| ==> occs[j].prior in RegisterAll(ps, ns, occs).0
  {
    if |occs| > 0 {
      var n := |occs| - 1;
      var front := RegisterAll(ps, ns, occs[..n]);
      var r := RegisterAll(ps, ns, occs);
      RegisterAllRegisters(ps, ns, occs[..n]);
      RegisterKeeps(front.0, front.1, occs[n]);
      forall j | 0 <= j < n ensures occs[j].prior in r.0 {
        assert occs[..n][j] == occs[j];
        var i := IndexOf(front.0, occs[j].prior);
        assert r.0[i] == front.0[i];
      }
    }
  }

  /** Registering a run of priors keeps every earlier name or a shortened
      form of it. */
  lemma {:induction false} RegisterAllStrips(ps: seq<Prior>, ns: seq<string>, occs: seq<Occurrence>)
    requires |ps| == |ns|
    ensures |ns| <= |RegisterAll(ps, ns, occs).1|
    ensures forall k :: 0 <= k < |ns| ==> Stripped(ns[k], RegisterAll(ps, ns, occs).1[k])
  {
    if |occs| > 0 {
      var n := |occs| - 1;
      var front := RegisterAll(ps, ns, occs[..n]);
      var r := RegisterAll(ps, ns, occs);
      RegisterAllStrips(ps, ns, occs[..n]);
      RegisterKeeps(front.0, front.1, occs[n]);
      forall k | 0 <= k < |ns| ensures Stripped(ns[k], r.1[k]) {
        StrippedTrans(ns[k], front.1[k], r.1[k]);
      }
    }
  }

  /** Registration never registers a prior twice or gives a name twice. */
  lemma {:induction false} RegisterAllDistinct(ps: seq<Prior>, ns: seq<string>, occs: seq<Occurrence>)
    requires |ps| == |ns| && Distinct(ps) && Distinct(ns)
    ensures Distinct(RegisterAll(ps, ns, occs).0) && Distinct(RegisterAll(ps, ns, occs).1)
  {
    if |occs| > 0 {
      var n := |occs| - 1;
      RegisterAllDistinct(ps, ns, occs[..n]);
    }
  }

  /** `occs[j]` holds a prior not yet registered when it is met, which
      takes slot `k` there, and `name` is the free name its candidate led
      to there, or a shortened form of it. */
  ghost predicate FirstMet(ps: seq<Prior>, ns: seq<string>, occs: seq<Occurrence>, j: nat, k: nat, name: string)
    requires |ps| == |ns| && j < |occs|
  {
    var before := RegisterAll(ps, ns, occs[..j]);
    occs[j].prior !in before.0 && |before.0| == k && Stripped(FreeName(before.1, Candidate(occs[j])), name)
  }

  /** A prior met first within a run is met first within any longer run,
      with its name shortened further. */
  lemma {:induction false} FirstMetLonger(ps: seq<Prior>, ns: seq<string>, occs: seq<Occurrence>, n: nat, j: nat, k: nat, name: string, name': string)
    requires |ps| == |ns| && j < n <= |occs|
    requires FirstMet(ps, ns, occs[..n], j, k, name) && Stripped(name, name')
    ensures FirstMet(ps, ns, occs, j, k, name')
  {
    assert occs[..n][..j] == occs[..j] && occs[..n][j] == occs[j];
    StrippedTrans(FreeName(RegisterAll(ps, ns, occs[..j]).1, Candidate(occs[j])), name, name');
  }

  /** A slot added by the last registration of a run holds the prior met
      there, under the free name its candidate leads to. */
  lemma {:induction false} FirstMetLast(ps: seq<Prior>, ns: seq<string>, occs: seq<Occurrence>, k: nat)
    requires |ps| == |ns| && |occs| > 0
    requires |RegisterAll(ps, ns, occs[..|occs| - 1]).0| <= k < |RegisterAll(ps, ns, occs).0|
    ensures occs[|occs| - 1].prior == RegisterAll(ps, ns, occs).0[k]
    ensures FirstMet(ps, ns, occs, |occs| - 1, k, RegisterAll(ps, ns, occs).1[k])
  {
    var n := |occs| - 1;
    var front := RegisterAll(ps, ns, occs[..n]);
    RegisterIs(front.0, front.1, occs[n]);
  }

  /** Every prior a run registers comes from the run: it is met first at
      some position, where it takes its slot, and its name is the free name
      its candidate led to there, shortened by later registrations of the
      same prior. */
  lemma {:induction false} RegisterAllNew(ps: seq<Prior>, ns: seq<string>, occs: seq<Occurrence>)
    requires |ps| == |ns|
    ensures forall k :: |ps| <= k < |RegisterAll(ps, ns, occs).0| ==>
      exists j :: 0 <= j < |occs| && occs[j].prior == RegisterAll(ps, ns, occs).0[k] &&
        FirstMet(ps, ns, occs, j, k, RegisterAll(ps, ns, occs).1[k])
  {
    if |occs| > 0 {
      var n := |occs| - 1;
      var front := RegisterAll(ps, ns, occs[..n]);
      var r := RegisterAll(ps, ns, occs);
      RegisterAllNew(ps, ns, occs[..n]);
      RegisterKeeps(front.0, front.1, occs[n]);
      forall k | |ps| <= k < |r.0|
        ensures exists j :: 0 <= j < |occs| && occs[j].prior == r.0[k] && FirstMet(ps, ns, occs, j, k, r.1[k])
      {
        if k < |front.0| {
          var j :| 0 <= j < n && occs[..n][j].prior == front.0[k] && FirstMet(ps, ns, occs[..n], j, k, front.1[k]);
          FirstMetLonger(ps, ns, occs, n, j, k, front.1[k], r.1[k]);
          assert occs[j] == occs[..n][j] && r.0[k] == front.0[k];
        } else {
          FirstMetLast(ps, ns, occs, k);
        }
      }
    } else {
      assert RegisterAll(ps, ns, occs).0 == ps;
    }
  }

  /** Two unnamed priors in `{"r": p, "center": [q, 1.0]}` are named by
      their paths: `r` at the top level and `center.0` inside the list. */
  lemma {:induction false} PathNamesExample(p: Prior, q: Prior)
    requires p != q && p.name.None? && q.name.None?
    ensures var v := Dictionary(["r", "center"], [PriorRef(p), Sequence(PyList, [PriorRef(q), Number(1.0)])]);
      WellFormed(v) && RegisterAll([], [], Occurrences(v, "")) == ([p, q], ["r", "center.0"])
  {
    DictOccurrences(p, q);
    RegisterPaths(p, q);
  }

  /** The builder meets `p` under `r`, then `q` under `center.0`. */
  lemma {:induction false} DictOccurrences(p: Prior, q: Prior)
    ensures var v := Dictionary(["r", "center"], [PriorRef(p), Sequence(PyList, [PriorRef(q), Number(1.0)])]);
      WellFormed(v) && Occurrences(v, "") == [Occurrence(p, "r"), Occurrence(q, "center.0")]
  {
    var inner := [PriorRef(q), Number(1.0)];
    var values := [PriorRef(p), Sequence(PyList, inner)];
    var v := Dictionary(["r", "center"], values);
    assert Distinct(["r", "center"]);
    assert forall k :: 0 <= k < |values| ==> WellFormed(values[k]);
    ListOccurrences(q);
    assert values[..1] == [PriorRef(p)] && [PriorRef(p)][..0] == [];
    assert ["r", "center"][..1] == ["r"] && ["r"][..0] == [];
    assert OccurrencesAll("", [], []) == [];
    assert OccurrencesAll("", ["r"], [PriorRef(p)]) == [Occurrence(p, "r")] by {
      assert "" + "r" == "r";
    }
    assert "" + "center" == "center";
  }

  /** Registering two distinct unnamed priors met under `r` and
      `center.0` gives each its path as its name. */
  lemma {:induction false} RegisterPaths(p: Prior, q: Prior)
    requires p != q && p.name.None? && q.name.None?
    ensures RegisterAll([], [], [Occurrence(p, "r"), Occurrence(q, "center.0")]) == ([p, q], ["r", "center.0"])
  {
    var occs := [Occurrence(p, "r"), Occurrence(q, "center.0")];
    RegisterAllOne([], [], occs[0]);
    assert occs[..1] == [occs[0]];
    RegisterIs([], [], occs[0]);
    assert Candidate(occs[0]) == "r";
    assert FreeName([], "r") == "r";
    var first := RegisterAll([], [], occs[..1]);
    assert first.0 == [p] && first.1 == ["r"];
    RegisterIs([p], ["r"], occs[1]);
    assert Candidate(occs[1]) == "center.0";
    assert "center.0" !in ["r"];
    assert FreeName(["r"], "center.0") == "center.0";
    assert occs[..2] == occs;
    var last := RegisterAll([], [], occs);
    assert last == Register(first.0, first.1, occs[1]);
    assert last.0 == [p, q] && last.1 == ["r", "center.0"];
  }

  /** The single prior of `[q, 1.0]` under `center` is met as `center.0`. */
  lemma {:induction false} ListOccurrences(q: Prior)
    ensures Occurrences(Sequence(PyList, [PriorRef(q), Number(1.0)]), "center") == [Occurrence(q, "center.0")]
  {
    var inner := [PriorRef(q), Number(1.0)];
    assert NatToString(0) == "0" && NatToString(1) == "1";
    assert Labels(2) == ["0", "1"];
    assert inner[..1] == [PriorRef(q)] && [PriorRef(q)][..0] == [];
    assert ["0", "1"][..1] == ["0"] && ["0"][..0] == [];
    assert "center" + "." == "center.";
    assert "center." + "0" == "center.0";
    assert Occurrences(Number(1.0), "center." + "1") == [];
    assert OccurrencesAll("center.", [], []) == [];
    assert OccurrencesAll("center.", ["0"], [PriorRef(q)]) == [Occurrence(q, "center.0")];
  }

  /** A prior named `s:t` met twice keeps one slot; meeting it again
      shortens its name to `t`, which no other parameter has. */
  lemma {:induction false} SharedNameExample(p: Prior)
    requires p.name == Some("s:t")
    ensures RegisterAll([], [], [Occurrence(p, "a"), Occurrence(p, "b")]) == ([p], ["t"])
  {
    var occs := [Occurrence(p, "a"), Occurrence(p, "b")];
    RegisterAllOne([], [], occs[0]);
    assert occs[..1] == [occs[0]];
    RegisterIs([], [], occs[0]);
    assert Candidate(occs[0]) == "s:t";
    assert FreeName([], "s:t") == "s:t";
    var first := RegisterAll([], [], occs[..1]);
    assert first.0 == [p] && first.1 == ["s:t"];
    AfterColonOf("s", "t");
    assert "s:t" == "s" + ":" + "t";
    RegisterIs([p], ["s:t"], occs[1]);
    assert IndexOf([p], p) == 0;
    assert "t" !in ["s:t"];
    assert occs[..2] == occs;
    var last := RegisterAll([], [], occs);
    assert last == Register(first.0, first.1, occs[1]);
    assert last.0 == [p] && last.1 == ["t"];
  }
}
