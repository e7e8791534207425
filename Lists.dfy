/** The Python list operations `add_tie` performs on the registry's parallel
    lists and on its list of tied indices: `del s[k]`, `s.index(x)`,
    `s.sort()` and the count `(np.array(s) < x).sum()`. */
module Lists {

  predicate Distinct<T(==)>(s: seq<T>) {
    forall i, j :: 0 <= i < j < |s| ==> s[i] != s[j]
  }

  predicate Sorted(s: seq<nat>) {
    forall i, j :: 0 <= i < j < |s| ==> s[i] <= s[j]
  }

  predicate StrictlyIncreasing(s: seq<nat>) {
    forall i, j :: 0 <= i < j < |s| ==> s[i] < s[j]
  }

  /** `(np.array(s) < x).sum()`: how many entries of `s` lie below `x`. */
  function CountBelow(s: seq<nat>, x: nat): (n: nat)
    ensures n <= |s|
  {
    if |s| == 0 then 0
    else CountBelow(s[..|s| - 1], x) + (if s[|s| - 1] < x then 1 else 0)
  }

  lemma {:induction false} CountBelowAll(s: seq<nat>, x: nat)
    requires forall k :: 0 <= k < |s| ==> s[k] < x
    ensures CountBelow(s, x) == |s|
  {
    if |s| > 0 {
      CountBelowAll(s[..|s| - 1], x);
    }
  }

  lemma {:induction false} CountBelowNone(s: seq<nat>, x: nat)
    requires forall k :: 0 <= k < |s| ==> x <= s[k]
    ensures CountBelow(s, x) == 0
  {
    if |s| > 0 {
      CountBelowNone(s[..|s| - 1], x);
    }
  }

  /** The count read from the front of the list. */
  lemma {:induction false} CountBelowFront(s: seq<nat>, x: nat)
    requires |s| > 0
    ensures CountBelow(s, x) == (if s[0] < x then 1 else 0) + CountBelow(s[1..], x)
  {
    if |s| > 1 {
      CountBelowFront(s[..|s| - 1], x);
      assert s[..|s| - 1][1..] == s[1..][..|s| - 2];
    }
  }

  /** In a strictly increasing list of naturals, at most `x` entries lie
      below `x`. */
  lemma {:induction false} CountBelowBound(s: seq<nat>, x: nat)
    requires StrictlyIncreasing(s)
    ensures CountBelow(s, x) <= x
  {
    if |s| > 0 {
      var front := s[..|s| - 1];
      CountBelowBound(front, x);
      if s[|s| - 1] < x {
        IncreasingFloor(s, |s| - 1);
        CountBelowAll(front, x);
      }
    }
  }

  /** A strictly increasing list of naturals has `s[k] >= s[0] + k`. */
  lemma {:induction false} IncreasingFloor(s: seq<nat>, k: nat)
    requires StrictlyIncreasing(s) && k < |s|
    ensures s[0] + k <= s[k]
  {
    if k > 0 {
      IncreasingFloor(s, k - 1);
    }
  }

  /** How many entries of `s` differ from `x`: the length of `s` once
      every `x` is filtered out. */
  function CountNot<T(==)>(s: seq<T>, x: T): (n: nat)
    ensures n <= |s|
  {
    if |s| == 0 then 0
    else CountNot(s[..|s| - 1], x) + (if s[|s| - 1] != x then 1 else 0)
  }

  /** `del s[k]` */
  function DeleteAt<T>(s: seq<T>, k: nat): (r: seq<T>)
    requires k < |s|
    ensures |r| == |s| - 1
    ensures forall i :: 0 <= i < k ==> r[i] == s[i]
    ensures forall i :: k <= i < |r| ==> r[i] == s[i + 1]
  {
    s[..k] + s[k + 1..]
  }

  /** `for k in drop[::-1]: del s[k]`, deleting the highest position first
      so that the lower positions still to be deleted do not move. */
  function DeleteDescending<T>(s: seq<T>, drop: seq<nat>): (r: seq<T>)
    requires StrictlyIncreasing(drop)
    requires |drop| > 0 ==> drop[|drop| - 1] < |s|
    ensures |drop| <= |s| && |r| == |s| - |drop|
  {
    if |drop| == 0 then s
    else
      IncreasingFloor(drop, |drop| - 1);
      DeleteDescending(DeleteAt(s, drop[|drop| - 1]), drop[..|drop| - 1])
  }

  /** Deleting from the highest position down ends with the lowest one. */
  lemma {:induction false} DeleteDescendingFirst<T>(s: seq<T>, drop: seq<nat>)
    requires StrictlyIncreasing(drop) && |drop| > 0
    requires drop[|drop| - 1] < |s|
    ensures |drop| <= |s| && drop[0] < |s| - (|drop| - 1)
    ensures DeleteDescending(s, drop) == DeleteAt(DeleteDescending(s, drop[1..]), drop[0])
  {
    IncreasingFloor(drop, |drop| - 1);
    var n := |drop| - 1;
    if n > 0 {
      var t := DeleteAt(s, drop[n]);
      DeleteDescendingFirst(t, drop[..n]);
      assert drop[..n][1..] == drop[1..][..n - 1];
      assert drop[1..][n - 1] == drop[n];
    }
  }

  /** `s` once the positions `drop[j + 1..]` are deleted, the highest
      first: the state of a loop that walks `drop` downwards. */
  function DeletedAbove<T>(s: seq<T>, drop: seq<nat>, j: int): seq<T>
    requires StrictlyIncreasing(drop) && -1 <= j < |drop| && (|drop| > 0 ==> drop[|drop| - 1] < |s|)
  {
    var tail := drop[j + 1..];
    assert |tail| > 0 ==> tail[|tail| - 1] == drop[|drop| - 1];
    DeleteDescending(s, tail)
  }

  /** One step of that loop: `drop[j]` goes next. */
  lemma DeletedAboveStep<T>(s: seq<T>, drop: seq<nat>, j: nat)
    requires StrictlyIncreasing(drop) && j < |drop| && drop[|drop| - 1] < |s|
    ensures drop[j] < |DeletedAbove(s, drop, j)|
    ensures DeletedAbove(s, drop, j - 1) == DeleteAt(DeletedAbove(s, drop, j), drop[j])
  {
    var tail := drop[j..];
    assert tail[1..] == drop[j + 1..] && tail[|tail| - 1] == drop[|drop| - 1];
    DeleteDescendingFirst(s, tail);
  }

  /** The loop starts from `s` and ends with every position but the lowest
      deleted. */
  lemma DeletedAboveEnds<T>(s: seq<T>, drop: seq<nat>)
    requires StrictlyIncreasing(drop) && |drop| > 0 && drop[|drop| - 1] < |s|
    ensures DeletedAbove(s, drop, |drop| - 1) == s
    ensures DeletedAbove(s, drop, 0) == DeleteDescending(s, drop[1..])
  {
    assert drop[|drop|..] == [];
  }

  /** Where a surviving entry ends up: position `i` moves down by the number
      of deleted positions below it, and keeps its value. Hence survivors
      keep their relative order. */
  lemma {:induction false} DeleteDescendingAt<T>(s: seq<T>, drop: seq<nat>, i: nat)
    requires StrictlyIncreasing(drop)
    requires |drop| > 0 ==> drop[|drop| - 1] < |s|
    requires i < |s| && i !in drop
    ensures CountBelow(drop, i) <= i
    ensures i - CountBelow(drop, i) < |DeleteDescending(s, drop)|
    ensures DeleteDescending(s, drop)[i - CountBelow(drop, i)] == s[i]
  {
    CountBelowBound(drop, i);
    if |drop| > 0 {
      var last := drop[|drop| - 1];
      var front := drop[..|drop| - 1];
      var t := DeleteAt(s, last);
      assert DeleteDescending(s, drop) == DeleteDescending(t, front);
      if i < last {
        DeleteDescendingAt(t, front, i);
        assert CountBelow(drop, i) == CountBelow(front, i);
      } else {
        IncreasingFloor(drop, |drop| - 1);
        assert i - 1 !in front;
        DeleteDescendingAt(t, front, i - 1);
        CountBelowAll(front, i - 1);
        CountBelowAll(front, i);
        assert CountBelow(drop, i) == CountBelow(front, i) + 1;
      }
    }
  }

  /** Every entry left after the deletions comes from a position that was
      not deleted. */
  lemma {:induction false} DeleteDescendingFrom<T>(s: seq<T>, drop: seq<nat>, j: nat)
    requires StrictlyIncreasing(drop)
    requires |drop| > 0 ==> drop[|drop| - 1] < |s|
    requires j < |DeleteDescending(s, drop)|
    ensures exists i :: 0 <= i < |s| && i !in drop && s[i] == DeleteDescending(s, drop)[j]
  {
    if |drop| == 0 {
      assert s[j] == DeleteDescending(s, drop)[j];
    } else {
      var last := drop[|drop| - 1];
      var front := drop[..|drop| - 1];
      var t := DeleteAt(s, last);
      DeleteDescendingFrom(t, front, j);
      var i :| 0 <= i < |t| && i !in front && t[i] == DeleteDescending(t, front)[j];
      assert DeleteDescending(s, drop) == DeleteDescending(t, front);
      IncreasingFloor(drop, |drop| - 1);
      if i < last {
        assert s[i] == t[i] && i !in drop;
      } else {
        assert s[i + 1] == t[i];
        assert i + 1 !in drop;
      }
    }
  }

  lemma {:induction false} DeleteDescendingDistinct<T>(s: seq<T>, drop: seq<nat>)
    requires StrictlyIncreasing(drop)
    requires |drop| > 0 ==> drop[|drop| - 1] < |s|
    requires Distinct(s)
    ensures Distinct(DeleteDescending(s, drop))
  {
    if |drop| > 0 {
      var t := DeleteAt(s, drop[|drop| - 1]);
      assert Distinct(t) by {
        forall i, j | 0 <= i < j < |t| ensures t[i] != t[j] {
          var i' := if i < drop[|drop| - 1] then i else i + 1;
          var j' := if j < drop[|drop| - 1] then j else j + 1;
          assert t[i] == s[i'] && t[j] == s[j'] && i' < j';
        }
      }
      DeleteDescendingDistinct(t, drop[..|drop| - 1]);
    }
  }

  /** `s.index(x)`: the first position holding `x`. */
  function IndexOf<T(==)>(s: seq<T>, x: T): (k: nat)
    requires x in s
    ensures k < |s| && s[k] == x
    ensures forall j :: 0 <= j < k ==> s[j] != x
  {
    if s[0] == x then 0 else 1 + IndexOf(s[1..], x)
  }

  /** Places `x` into an ascending list, before the first entry not
      below it. */
  function Insert(x: nat, s: seq<nat>): (r: seq<nat>)
    ensures |r| == |s| + 1
  {
    if |s| == 0 || x <= s[0] then [x] + s else [s[0]] + Insert(x, s[1..])
  }

  lemma {:induction false} InsertMultiset(x: nat, s: seq<nat>)
    ensures multiset(Insert(x, s)) == multiset(s) + multiset{x}
  {
    if |s| > 0 && s[0] < x {
      InsertMultiset(x, s[1..]);
      assert s == [s[0]] + s[1..];
    }
  }

  /** Every entry of `Insert(x, s)` is `x` or an entry of `s`. */
  lemma InsertFrom(x: nat, s: seq<nat>, k: nat)
    requires k < |Insert(x, s)|
    ensures Insert(x, s)[k] == x || Insert(x, s)[k] in s
  {
    InsertMultiset(x, s);
    assert Insert(x, s)[k] in multiset(Insert(x, s));
  }

  lemma {:induction false} InsertSorted(x: nat, s: seq<nat>)
    requires Sorted(s)
    ensures Sorted(Insert(x, s))
  {
    if |s| > 0 && s[0] < x {
      var rest := Insert(x, s[1..]);
      InsertSorted(x, s[1..]);
      forall k | 0 <= k < |rest| ensures s[0] <= rest[k] {
        InsertFrom(x, s[1..], k);
      }
    }
  }

  lemma {:induction false} InsertStrict(x: nat, s: seq<nat>)
    requires StrictlyIncreasing(s) && x !in s
    ensures StrictlyIncreasing(Insert(x, s))
  {
    if |s| > 0 && s[0] < x {
      var rest := Insert(x, s[1..]);
      assert x !in s[1..];
      InsertStrict(x, s[1..]);
      forall k | 0 <= k < |rest| ensures s[0] < rest[k] {
        InsertFrom(x, s[1..], k);
      }
    }
  }

  /** `s.sort()` on a list of indices. */
  function SortAscending(s: seq<nat>): (r: seq<nat>)
    ensures Sorted(r)
    ensures multiset(r) == multiset(s)
  {
    if |s| == 0 then []
    else
      var rest := SortAscending(s[1..]);
      InsertSorted(s[0], rest);
      InsertMultiset(s[0], rest);
      assert s == [s[0]] + s[1..];
      Insert(s[0], rest)
  }

  /** Sorting a list without repetitions gives a strictly increasing one. */
  lemma {:induction false} SortDistinct(s: seq<nat>)
    requires Distinct(s)
    ensures StrictlyIncreasing(SortAscending(s))
  {
    if |s| > 0 {
      var rest := SortAscending(s[1..]);
      SortDistinct(s[1..]);
      assert s[0] !in s[1..];
      assert s[0] !in multiset(rest);
      InsertStrict(s[0], rest);
    }
  }
}
