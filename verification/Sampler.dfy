/** The K-best sampler of fcyc.c, with samples as reals. */
module Sampler {
  predicate Sorted(s: seq<real>) { forall i, j :: 0 <= i < j < |s| ==> s[i] <= s[j] }

  /** Insertion behind the last element that is not larger. */
  function Insert(s: seq<real>, v: real): (r: seq<real>)
    ensures |r| == |s| + 1
  {
    if s == [] || s[|s| - 1] <= v then s + [v] else Insert(s[..|s| - 1], v) + [s[|s| - 1]]
  }

  /** What `values` holds after the samples `seen`. */
  function Kept(k: nat, seen: seq<real>): (r: seq<real>)
    requires k > 0
    ensures |r| == if |seen| < k then |seen| else k
  {
    if seen == [] then []
    else
      var r, v := Kept(k, seen[..|seen| - 1]), seen[|seen| - 1];
      if |seen| - 1 < k then Insert(r, v) else if v < r[k - 1] then Insert(r[..k - 1], v) else r
  }

  lemma InsertOnce(s: seq<real>, v: real)
    ensures Insert(s, v) == if s == [] || s[|s| - 1] <= v then s + [v] else Insert(s[..|s| - 1], v) + [s[|s| - 1]]
  {
  }

  /** Moving past a larger value. */
  lemma InsertStep(s: seq<real>, n: nat, v: real, tail: seq<real>)
    requires 0 < n <= |s| && s[n - 1] > v && Insert(s, v) == Insert(s[..n], v) + tail
    ensures Insert(s, v) == Insert(s[..n - 1], v) + ([s[n - 1]] + tail)
  {
    hide Insert;
    InsertOnce(s[..n], v);
    assert s[..n][..n - 1] == s[..n - 1];
  }

  lemma SwapDown(s: seq<real>, n: nat, v: real, tail: seq<real>)
    requires 0 < n <= |s|
    ensures (s[..n] + [v] + tail)[n - 1 := v][n := s[n - 1]] == s[..n - 1] + [v] + ([s[n - 1]] + tail)
  {
  }

  lemma KeptOnce(k: nat, init: seq<real>, v: real)
    requires k > 0
    ensures |Kept(k, init)| == if |init| < k then |init| else k
    ensures Kept(k, init + [v]) ==
      if |init| < k then Insert(Kept(k, init), v)
      else if v < Kept(k, init)[k - 1] then Insert(Kept(k, init)[..k - 1], v)
      else Kept(k, init)
  {
    assert (init + [v])[..|init|] == init;
  }

  lemma {:induction false} InsertAdds(s: seq<real>, v: real)
    ensures multiset(Insert(s, v)) == multiset(s) + multiset{v}
  {
    if s != [] && s[|s| - 1] > v {
      InsertAdds(s[..|s| - 1], v);
      assert s == s[..|s| - 1] + [s[|s| - 1]];
    }
  }

  lemma {:induction false} InsertSorts(s: seq<real>, v: real)
    requires Sorted(s)
    ensures Sorted(Insert(s, v))
    ensures forall i :: 0 <= i <= |s| ==> Insert(s, v)[i] == v || (s != [] && Insert(s, v)[i] <= s[|s| - 1])
  {
    if s != [] && s[|s| - 1] > v {
      InsertSorts(s[..|s| - 1], v);
    }
  }

  /** All the samples, sorted. */
  function Ordered(seen: seq<real>): (r: seq<real>)
    ensures |r| == |seen|
  {
    if seen == [] then [] else Insert(Ordered(seen[..|seen| - 1]), seen[|seen| - 1])
  }

  lemma OrderedOnce(init: seq<real>, v: real)
    ensures Ordered(init + [v]) == Insert(Ordered(init), v)
  {
    assert (init + [v])[..|init|] == init;
  }

  lemma {:induction false} OrderedFacts(seen: seq<real>)
    ensures Sorted(Ordered(seen)) && multiset(Ordered(seen)) == multiset(seen)
  {
    if seen != [] {
      var init, v := seen[..|seen| - 1], seen[|seen| - 1];
      OrderedFacts(init);
      InsertAdds(Ordered(init), v);
      InsertSorts(Ordered(init), v);
      assert seen == init + [v];
    }
  }

  /** The front of an insertion, from the front of the list. */
  lemma {:induction false} InsertFront(s: seq<real>, v: real, k: nat)
    requires Sorted(s) && 0 < k <= |s|
    ensures Insert(s, v)[..k] == if v < s[k - 1] then Insert(s[..k - 1], v) else s[..k]
  {
    var init := s[..|s| - 1];
    if s[|s| - 1] <= v {
    } else if k == |s| {
      assert s[..k - 1] == init;
    } else {
      InsertFront(init, v, k);
      assert init[..k - 1] == s[..k - 1] && init[..k] == s[..k];
      assert Insert(s, v)[..k] == Insert(init, v)[..k];
    }
  }

  /** The kept samples are the smallest ones: the front of all samples in order. */
  lemma {:induction false} KeptAreSmallest(k: nat, seen: seq<real>)
    requires k > 0
    ensures Kept(k, seen) == Ordered(seen)[..if |seen| < k then |seen| else k]
  {
    hide Kept, Ordered, Insert;
    if seen == [] {
      assert |Kept(k, seen)| == 0 && Ordered(seen)[..0] == [];
    } else {
      var init, v := seen[..|seen| - 1], seen[|seen| - 1];
      assert seen == init + [v];
      KeptAreSmallest(k, init);
      KeptOnce(k, init, v);
      OrderedOnce(init, v);
      OrderedFacts(init);
      if |init| < k {
        assert Ordered(init)[..|init|] == Ordered(init);
        assert Ordered(seen)[..|seen|] == Ordered(seen);
      } else {
        InsertFront(Ordered(init), v, k);
        assert Ordered(init)[..k][..k - 1] == Ordered(init)[..k - 1];
      }
    }
  }

  /** values[0] is the minimum of all samples. */
  lemma FirstIsMinimum(k: nat, seen: seq<real>)
    requires k > 0 && seen != []
    ensures Kept(k, seen)[0] in seen && forall x :: x in seen ==> Kept(k, seen)[0] <= x
  {
    var r := Ordered(seen);
    KeptAreSmallest(k, seen);
    OrderedFacts(seen);
    assert r[0] in multiset(seen) by { assert r[0] in multiset(r); }
    forall x | x in seen ensures r[0] <= x {
      assert x in multiset(r) by { assert x in multiset(seen); }
      assert x in r;
    }
  }

  /** The least of the samples. */
  predicate Least(seen: seq<real>, m: real) { m in seen && forall x :: x in seen ==> m <= x }

  /** How many of the samples are at most `bound`. */
  function CountWithin(seen: seq<real>, bound: real): (n: nat)
    ensures n <= |seen|
  {
    if seen == [] then 0
    else CountWithin(seen[..|seen| - 1], bound) + if seen[|seen| - 1] <= bound then 1 else 0
  }

  function Limit(epsilon: real, m: real): real { (1.0 + epsilon) * m }

  /** At least k of the samples are at most (1 + epsilon) times the least of them. */
  ghost predicate Converged(k: nat, epsilon: real, seen: seq<real>) {
    exists m :: Least(seen, m) && CountWithin(seen, Limit(epsilon, m)) >= k
  }

  /** The count is the number of indices: one for each sample that is at most `bound`. */
  lemma {:induction false} CountWithinIs(seen: seq<real>, bound: real)
    ensures CountWithin(seen, bound) == |set i | 0 <= i < |seen| && seen[i] <= bound|
  {
    var all := set i | 0 <= i < |seen| && seen[i] <= bound;
    if seen != [] {
      var n := |seen| - 1;
      var init := seen[..n];
      CountWithinIs(init, bound);
      var front := set i | 0 <= i < n && init[i] <= bound;
      assert all == front + if seen[n] <= bound then {n} else {};
    }
  }

  lemma CountWithinOnce(init: seq<real>, v: real, bound: real)
    ensures CountWithin(init + [v], bound) == CountWithin(init, bound) + if v <= bound then 1 else 0
  {
    assert (init + [v])[..|init|] == init;
  }

  lemma {:induction false} CountInserted(s: seq<real>, v: real, bound: real)
    ensures CountWithin(Insert(s, v), bound) == CountWithin(s, bound) + if v <= bound then 1 else 0
  {
    if s == [] || s[|s| - 1] <= v {
      CountWithinOnce(s, v, bound);
    } else {
      var init, x := s[..|s| - 1], s[|s| - 1];
      CountInserted(init, v, bound);
      CountWithinOnce(Insert(init, v), x, bound);
    }
  }

  lemma {:induction false} CountOrdered(seen: seq<real>, bound: real)
    ensures CountWithin(Ordered(seen), bound) == CountWithin(seen, bound)
  {
    if seen != [] {
      var n := |seen| - 1;
      CountOrdered(seen[..n], bound);
      CountInserted(Ordered(seen[..n]), seen[n], bound);
    }
  }

  /** In order, k samples are at most `bound` exactly when the k-th is. */
  lemma {:induction false} CountSorted(s: seq<real>, bound: real, k: nat)
    requires Sorted(s) && k > 0
    ensures CountWithin(s, bound) >= k <==> |s| >= k && s[k - 1] <= bound
    ensures s != [] && s[|s| - 1] <= bound ==> CountWithin(s, bound) == |s|
  {
    if s != [] {
      CountSorted(s[..|s| - 1], bound, k);
    }
  }

  /** The comparison of the first and the last value kept decides convergence, for any epsilon and any samples. */
  lemma ConvergedIff(k: nat, epsilon: real, seen: seq<real>)
    requires k > 0
    ensures Converged(k, epsilon, seen) <==>
      |seen| >= k && (1.0 + epsilon) * Kept(k, seen)[0] >= Kept(k, seen)[k - 1]
  {
    hide Kept, Ordered, CountWithin;
    if seen != [] {
      var m := Kept(k, seen)[0];
      var bound := Limit(epsilon, m);
      FirstIsMinimum(k, seen);
      assert Least(seen, m);
      CountOrdered(seen, bound);
      OrderedFacts(seen);
      CountSorted(Ordered(seen), bound, k);
      KeptAreSmallest(k, seen);
      if Converged(k, epsilon, seen) {
        var n :| Least(seen, n) && CountWithin(seen, Limit(epsilon, n)) >= k;
        assert n == m;
      }
    }
  }

  class KBest {
    const kbest: nat
    const values: array<real>
    var sampleCount: nat
    ghost var seen: seq<real>

    ghost predicate Valid()
      reads this, values
    {
      && kbest > 0 && values.Length == kbest && sampleCount == |seen|
      && values[..|Kept(kbest, seen)|] == Kept(kbest, seen)
    }

    /** init_sampler */
    constructor (k: nat)
      requires k > 0
      ensures Valid() && seen == [] && kbest == k && fresh(values)
    {
      kbest := k;
      values := new real[k](_ => 0.0);
      sampleCount := 0;
      seen := [];
    }

    method AddSample(val: real)
      requires Valid()
      modifies this`sampleCount, this`seen, values
      ensures Valid() && seen == old(seen) + [val]
    {
      hide Kept, Insert;
      ghost var r := Kept(kbest, seen);
      KeptOnce(kbest, seen, val);
      var pos: nat := 0;
      var inserting := false;
      if sampleCount < kbest {
        pos, inserting := sampleCount, true;
        values[pos] := val;
      } else if val < values[kbest - 1] {
        pos, inserting := kbest - 1, true;
        values[pos] := val;
      }
      sampleCount := sampleCount + 1;
      seen := seen + [val];
      ghost var base := if inserting then r[..pos] else [];
      assert values[..pos] == base;
      assert pos == |r| ==> base == r;
      ghost var s := values[..];
      InsertionSort(pos, base);
      if inserting {
        assert values[..|Kept(kbest, seen)|] == values[..pos + 1];
      } else {
        InsertOnce([], s[0]);
        assert values[..] == values[..1] + values[1..] == [s[0]] + s[1..] == s;
      }
    }

    /** The insertion loop of add_sample: moves values[n] down among the `base` before it. */
    method InsertionSort(n: nat, ghost base: seq<real>)
      requires n < values.Length && |base| == n && values[..n] == base
      modifies values
      ensures values[..n + 1] == Insert(base, old(values[n])) && values[n + 1..] == old(values[n + 1..])
    {
      hide Insert;
      var pos := n;
      ghost var val, moved: seq<real> := values[n], [];
      assert values[..n + 1] == base[..n] + [val] + moved && base[..n] == base;
      while pos > 0 && values[pos - 1] > values[pos]
        invariant 0 <= pos <= n && |moved| == n - pos && values[..n + 1] == base[..pos] + [val] + moved
        invariant Insert(base, val) == Insert(base[..pos], val) + moved
        invariant values[n + 1..] == old(values[n + 1..])
      {
        ghost var s := values[..n + 1];
        assert s[pos - 1] == base[pos - 1] && s[pos] == val;
        var temp := values[pos - 1];
        values[pos - 1] := values[pos];
        values[pos] := temp;
        assert values[..n + 1] == s[pos - 1 := val][pos := base[pos - 1]];
        SwapDown(base, pos, val, moved);
        InsertStep(base, pos, val, moved);
        moved := [base[pos - 1]] + moved;
        pos := pos - 1;
      }
      assert pos > 0 ==> values[..n + 1][pos - 1] == base[pos - 1] && values[..n + 1][pos] == val;
      InsertOnce(base[..pos], val);
    }

    method HasConverged(epsilon: real) returns (r: bool)
      requires Valid()
      ensures r == Converged(kbest, epsilon, seen)
    {
      hide Kept, Converged;
      ConvergedIff(kbest, epsilon, seen);
      assert sampleCount >= kbest ==> values[..] == Kept(kbest, seen);
      r := sampleCount >= kbest && (1.0 + epsilon) * values[0] >= values[kbest - 1];
    }
  }

  function Samples(f: nat -> real, n: nat): (s: seq<real>)
    ensures |s| == n && forall i :: 0 <= i < n ==> s[i] == f(i)
  {
    if n == 0 then [] else Samples(f, n - 1) + [f(n - 1)]
  }

  /** fcyc over the measurements f(0), f(1), ...: it takes the fewest samples that converge or reach the limit,
      at least one, and returns the smallest of them. */
  method Fcyc(f: nat -> real, k: nat, epsilon: real, maxSamples: int) returns (result: real, taken: nat)
    requires k > 0
    ensures taken > 0 && (exists i :: 0 <= i < taken && result == f(i)) && forall i :: 0 <= i < taken ==> result <= f(i)
    ensures Converged(k, epsilon, Samples(f, taken)) || taken >= maxSamples
    ensures forall m :: 0 < m < taken ==> !Converged(k, epsilon, Samples(f, m)) && m < maxSamples
  {
    hide Converged, Kept;
    var sampler := new KBest(k);
    var more := true;
    taken := 0;
    while more
      invariant fresh(sampler) && fresh(sampler.values) && sampler.Valid() && sampler.kbest == k
      invariant sampler.seen == Samples(f, taken) && sampler.sampleCount == taken && (taken == 0 ==> more)
      invariant more ==> taken == 0 || taken < maxSamples
      invariant forall m :: 0 < m < taken ==> !Converged(k, epsilon, Samples(f, m)) && m < maxSamples
      invariant more && taken > 0 ==> !Converged(k, epsilon, Samples(f, taken))
      invariant !more ==> Converged(k, epsilon, Samples(f, taken)) || taken >= maxSamples
      decreases more, maxSamples - taken
    {
      var cyc := f(taken);
      sampler.AddSample(cyc);
      taken := taken + 1;
      assert sampler.seen == Samples(f, taken);
      var converged := sampler.HasConverged(epsilon);
      more := !converged && sampler.sampleCount < maxSamples;
    }
    result := sampler.values[0];
    FirstIsMinimum(k, sampler.seen);
    assert forall i :: 0 <= i < taken ==> sampler.seen[i] == f(i) && sampler.seen[i] in sampler.seen;
  }
}
