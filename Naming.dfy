/** How the registry names a newly registered parameter, and how it
    shortens the name of one registered again. */
module Naming {
  import opened Outcomes
  import opened PyStrings
  import opened Lists

  /** `base + "_" + str(k)`: the `k`-th name the registry tries after
      `base` is taken. */
  function Suffixed(base: string, k: nat): string {
    base + "_" + NatToString(k)
  }

  /** Different counters give different names. */
  lemma SuffixedInjective(base: string, j: nat, k: nat)
    ensures Suffixed(base, j) == Suffixed(base, k) <==> j == k
  {
    if j != k {
      var n := |base| + 1;
      assert Suffixed(base, j)[n..] == NatToString(j);
      assert Suffixed(base, k)[n..] == NatToString(k);
      NatToStringInjective(j, k);
    }
  }

  /** One turn of the counter loop on `Suffixed(base, k)`: reversing the
      name, splitting off the text before the first `_`, reading it back
      as a number and incrementing it gives `Suffixed(base, k + 1)`. */
  lemma SuffixedStep(base: string, k: nat)
    ensures |SplitOnce(Reverse(Suffixed(base, k)), '_')| == 2
    ensures var parts := SplitOnce(Reverse(Suffixed(base, k)), '_');
      ParseNat(Reverse(parts[0])) == Some(k) &&
      Reverse(parts[1]) + "_" + NatToString(k + 1) == Suffixed(base, k + 1)
  {
    var d := NatToString(k);
    ReverseConcat(base + "_", d);
    ReverseConcat(base, "_");
    assert Reverse("_") == "_";
    assert Reverse(Suffixed(base, k)) == Reverse(d) + ['_'] + Reverse(base);
    assert '_' !in Reverse(d) by {
      forall i | 0 <= i < |d| ensures Reverse(d)[i] != '_' {
        assert Reverse(d)[i] == d[|d| - 1 - i] && d[|d| - 1 - i] in d;
      }
    }
    SplitOnceAt(Reverse(d), '_', Reverse(base));
    ReverseReverse(d);
    ReverseReverse(base);
    ParseNatToString(k);
  }

  /** The name `_check_for_ties` gives a new parameter whose candidate name
      is `candidate` when `names` are taken: the candidate itself when it is
      free, otherwise the first of `candidate_0`, `candidate_1`, … that is
      free. */
  ghost predicate ChosenName(names: seq<string>, candidate: string, chosen: string) {
    chosen !in names &&
    (candidate !in names ==> chosen == candidate) &&
    (candidate in names ==>
      exists k: nat :: chosen == Suffixed(candidate, k) && forall j: nat :: j < k ==> Suffixed(candidate, j) in names)
  }

  /** The names the counter loop has tried after `k` turns. */
  ghost function Tried(base: string, k: nat): set<string> {
    set j: nat | j < k :: Suffixed(base, j)
  }

  lemma TriedNext(base: string, k: nat)
    ensures Tried(base, k + 1) == Tried(base, k) + {Suffixed(base, k)}
    ensures Suffixed(base, k) !in Tried(base, k)
  {
    forall j: nat | j < k ensures Suffixed(base, j) != Suffixed(base, k) {
      SuffixedInjective(base, j, k);
    }
  }

  /** The naming loop of `_check_for_ties`: the candidate when it is free;
      otherwise `candidate_0`, and while the name is taken, the name is
      reversed, split at its first `_`, and the counter read off the front
      is incremented. It ends because every name it tries is new and taken. */
  method ChooseName(names: seq<string>, candidate: string) returns (name: string)
    ensures ChosenName(names, candidate, name)
    ensures name == FreeName(names, candidate)
  {
    name := candidate;
    if name in names {
      name := name + "_0";
      assert NatToString(0) == "0";
      ghost var k: nat := 0;
      ghost var taken := set x | x in names;
      while name in names
        invariant name == Suffixed(candidate, k)
        invariant Tried(candidate, k) <= taken
        decreases |taken - Tried(candidate, k)|
      {
        TriedNext(candidate, k);
        assert taken - Tried(candidate, k + 1) < taken - Tried(candidate, k);
        var parts := SplitOnce(Reverse(name), '_');
        SuffixedStep(candidate, k);
        var counter := ParseNat(Reverse(parts[0]));
        name := Reverse(parts[1]) + "_" + NatToString(counter.value + 1);
        k := k + 1;
      }
      forall j: nat | j < k ensures Suffixed(candidate, j) in names {
        assert Suffixed(candidate, j) in Tried(candidate, k);
      }
    }
    ChosenNameUnique(names, candidate, name, FreeName(names, candidate));
  }

  /** The name the naming loop settles on, as a function of the taken
      names and the candidate. */
  ghost function FreeName(names: seq<string>, candidate: string): (r: string)
    ensures ChosenName(names, candidate, r)
  {
    if candidate !in names then candidate else FreeFrom(names, candidate, 0)
  }

  /** The first free name among `Suffixed(base, k)`, `Suffixed(base, k + 1)`,
      … when every earlier one is taken. There is one, since the names are
      all different and only finitely many are taken. */
  ghost function FreeFrom(names: seq<string>, base: string, k: nat): (r: string)
    requires forall j: nat :: j < k ==> Suffixed(base, j) in names
    ensures r !in names
    ensures exists i: nat :: k <= i && r == Suffixed(base, i) && forall j: nat :: j < i ==> Suffixed(base, j) in names
    decreases |(set x | x in names) - Tried(base, k)|
  {
    var taken := set x | x in names;
    assert Tried(base, k) <= taken;
    if Suffixed(base, k) !in names then Suffixed(base, k)
    else
      TriedNext(base, k);
      assert taken - Tried(base, k + 1) < taken - Tried(base, k);
      FreeFrom(names, base, k + 1)
  }

  /** The chosen name is determined by the taken names and the candidate. */
  lemma ChosenNameUnique(names: seq<string>, candidate: string, a: string, b: string)
    requires ChosenName(names, candidate, a) && ChosenName(names, candidate, b)
    ensures a == b
  {
    if candidate in names {
      var i: nat :| a == Suffixed(candidate, i) && forall j: nat :: j < i ==> Suffixed(candidate, j) in names;
      var k: nat :| b == Suffixed(candidate, k) && forall j: nat :: j < k ==> Suffixed(candidate, j) in names;
    }
  }

  /** With `x` and `x_0` taken, a new `x` is named `x_1`. */
  lemma ChosenNameExample()
    ensures ChosenName(["x", "x_0"], "x", "x_1")
  {
    assert Suffixed("x", 0) == "x_0";
    assert Suffixed("x", 1) == "x_1";
    assert forall j: nat :: j < 1 ==> Suffixed("x", j) in ["x", "x_0"];
  }

  /** `s.split(':', 1)[-1]`: what follows the first colon, or all of `s`. */
  function AfterColon(s: string): (r: string)
    ensures ':' !in s ==> r == s
    ensures ':' in s ==> |r| < |s| && r == s[|s| - |r|..]
  {
    var parts := SplitOnce(s, ':');
    parts[|parts| - 1]
  }

  /** A name `prefix:rest` whose prefix holds no colon shortens to `rest`. */
  lemma AfterColonOf(prefix: string, rest: string)
    requires ':' !in prefix
    ensures AfterColon(prefix + ":" + rest) == rest
  {
    SplitOnceAt(prefix, ':', rest);
  }

  /** `b` is what is left of the name `a` after it has lost the text up
      to its first colon any number of times. */
  predicate Stripped(a: string, b: string)
    decreases |a|
  {
    b == a || (':' in a && Stripped(AfterColon(a), b))
  }

  lemma {:induction false} StrippedTrans(a: string, b: string, c: string)
    requires Stripped(a, b) && Stripped(b, c)
    ensures Stripped(a, c)
    decreases |a|
  {
    if b != a {
      StrippedTrans(AfterColon(a), b, c);
    }
  }

  /** The name a registered parameter keeps when it is registered again:
      the text after its first colon, unless another parameter already has
      that name. Either way no name is given twice that was not before. */
  function SharedName(names: seq<string>, index: nat): (r: string)
    requires index < |names|
    ensures AfterColon(names[index]) !in names ==> r == AfterColon(names[index])
    ensures AfterColon(names[index]) in names ==> r == names[index]
    ensures Distinct(names) ==> Distinct(names[index := r])
  {
    var shared := AfterColon(names[index]);
    if shared !in names then shared else names[index]
  }
}
