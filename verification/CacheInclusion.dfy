/** Stack properties of the simulated cache: hits are decided by reuse distance, and caches of greater
    associativity include smaller ones. */
module CacheInclusion {
  import opened Options
  import opened CacheModel
  import opened CacheLru

  /** The tags accessed in set `i`, in order. */
  function SetTags(g: Geometry, trace: seq<Access>, i: nat): seq<int> {
    if trace == [] then []
    else
      var a, r := trace[|trace| - 1], SetTags(g, trace[..|trace| - 1], i);
      if g.SetOf(a.dir) == i then r + [g.TagOf(a.dir)] else r
  }

  /** All tags so far, by time of last use, most recent first. */
  function Recency(ts: seq<int>): seq<int> {
    if ts == [] then [] else [ts[|ts| - 1]] + Remove(Recency(ts[..|ts| - 1]), ts[|ts| - 1])
  }

  /** The distinct tags accessed since the last access to `t`. */
  function DistinctSince(ts: seq<int>, t: int): set<int> {
    if ts == [] || ts[|ts| - 1] == t then {} else {ts[|ts| - 1]} + DistinctSince(ts[..|ts| - 1], t)
  }

  function ToSet(l: seq<int>): set<int> { set t | t in l }

  // ----- the list of capacity `ways` is a prefix of the unbounded one -----

  lemma TakeCons(u: seq<int>, n: nat)
    requires u != [] && n > 0
    ensures Take(u, n) == [u[0]] + Take(u[1..], n - 1) && Take(u, n)[1..] == Take(u[1..], n - 1)
  {
  }

  lemma {:induction false} RemoveWithin(u: seq<int>, t: int, n: nat)
    requires t in Take(u, n)
    ensures n > 0 && Remove(Take(u, n), t) == Take(Remove(u, t), n - 1)
  {
    hide Remove;
    RemoveOnce(u, t);
    RemoveOnce(Take(u, n), t);
    TakeCons(u, n);
    if u[0] != t {
      RemoveWithin(u[1..], t, n - 1);
      if n > 1 { TakeCons(Remove(u, t), n - 1); }
    }
  }

  lemma {:induction false} RemoveBeyond(u: seq<int>, t: int, n: nat)
    requires t !in Take(u, n)
    ensures Take(Remove(u, t), n) == Take(u, n)
  {
    hide Remove;
    RemoveOnce(u, t);
    if n > 0 && u != [] {
      TakeCons(u, n);
      RemoveBeyond(u[1..], t, n - 1);
      TakeCons(Remove(u, t), n);
    }
  }

  lemma TouchIsPrefix(u: seq<int>, t: int, ways: nat)
    requires ways > 0
    ensures Touch(Take(u, ways), t, ways) == Take([t] + Remove(u, t), ways)
  {
    if t in Take(u, ways) {
      RemoveWithin(u, t, ways);
    } else {
      RemoveBeyond(u, t, ways);
      assert Take([t] + Remove(u, t), ways) == [t] + Take(Remove(u, t), ways - 1);
      assert Take(Remove(u, t), ways - 1) == Take(Take(Remove(u, t), ways), ways - 1);
    }
  }

  /** The recency list of each set is cut off from the recency list of all its tags. */
  lemma {:induction false} LruIsPrefix(g: Geometry, ways: nat, trace: seq<Access>, i: nat)
    requires ways > 0 && i < g.Sets()
    ensures LruRun(g, ways, trace)[i] == Take(Recency(SetTags(g, trace, i)), ways)
  {
    if trace != [] {
      var k := |trace| - 1;
      LruIsPrefix(g, ways, trace[..k], i);
      if g.SetOf(trace[k].dir) == i {
        var ts, t := SetTags(g, trace[..k], i), g.TagOf(trace[k].dir);
        TouchIsPrefix(Recency(ts), t, ways);
        assert (ts + [t])[..|ts|] == ts;
      }
    }
  }

  // ----- reuse distance -----

  lemma ToSetCons(x: int, l: seq<int>)
    ensures ToSet([x] + l) == {x} + ToSet(l)
  {
    assert forall t :: t in [x] + l <==> t == x || t in l;
  }

  lemma PrefixCons(l: seq<int>, n: nat)
    requires 0 < n <= |l|
    ensures l[..n] == [l[0]] + l[1..][..n - 1]
  {
  }

  lemma InCons(x: int, h: int, l: seq<int>)
    ensures x in [h] + l <==> x == h || x in l
  {
  }

  /** Position `p` of a list after removing `x` was position `p` or `p + 1` before. */
  lemma {:induction false} RemoveIndex(l: seq<int>, x: int, p: nat)
    requires p < |Remove(l, x)|
    ensures var q := if x in l[..p + 1] then p + 1 else p;
      && q < |l| && Remove(l, x)[p] == l[q]
      && ToSet(Remove(l, x)[..p]) + {x} == ToSet(l[..q]) + {x}
  {
    hide Remove, ToSet;
    RemoveOnce(l, x);
    var tail := l[1..];
    PrefixCons(l, p + 1);
    InCons(x, l[0], tail[..p]);
    if l[0] == x {
      ToSetCons(x, tail[..p]);
    } else if p > 0 {
      var q := if x in l[..p + 1] then p + 1 else p;
      RemoveIndex(tail, x, p - 1);
      PrefixCons(l, q);
      PrefixCons(Remove(l, x), p);
      ToSetCons(l[0], tail[..q - 1]);
      ToSetCons(l[0], Remove(tail, x)[..p - 1]);
    } else {
      assert Remove(l, x)[..0] == l[..0];
    }
  }

  ghost predicate Distinct(l: seq<int>) {
    forall p, q :: 0 <= p < q < |l| ==> l[p] != l[q]
  }

  lemma DistinctCons(x: int, l: seq<int>)
    ensures Distinct([x] + l) <==> x !in l && Distinct(l)
  {
    var m := [x] + l;
    assert forall p :: 0 <= p < |l| ==> m[p + 1] == l[p];
    if Distinct(m) {
      forall p | 0 <= p < |l| ensures l[p] != x {
        assert m[0] != m[p + 1];
      }
      forall p, q | 0 <= p < q < |l| ensures l[p] != l[q] {
        assert m[p + 1] != m[q + 1];
      }
    }
  }

  lemma {:induction false} RemoveDistinct(l: seq<int>, t: int)
    requires Distinct(l)
    ensures Distinct(Remove(l, t)) && forall u :: u in Remove(l, t) <==> u in l && u != t
  {
    if l != [] {
      assert l == [l[0]] + l[1..];
      DistinctCons(l[0], l[1..]);
      if l[0] != t {
        RemoveDistinct(l[1..], t);
        DistinctCons(l[0], Remove(l[1..], t));
      }
    }
  }

  lemma {:induction false} RecencyMembers(ts: seq<int>)
    ensures Distinct(Recency(ts)) && forall t :: t in Recency(ts) <==> t in ts
  {
    if ts != [] {
      var init, x := ts[..|ts| - 1], ts[|ts| - 1];
      RecencyMembers(init);
      RemoveDistinct(Recency(init), x);
      DistinctCons(x, Remove(Recency(init), x));
      assert ts == init + [x];
    }
  }

  lemma RecencyOnce(ts: seq<int>)
    ensures Recency(ts) == if ts == [] then [] else [ts[|ts| - 1]] + Remove(Recency(ts[..|ts| - 1]), ts[|ts| - 1])
  {
  }

  lemma DistinctSinceOnce(ts: seq<int>, t: int)
    requires ts != []
    ensures DistinctSince(ts, t) == if ts[|ts| - 1] == t then {} else {ts[|ts| - 1]} + DistinctSince(ts[..|ts| - 1], t)
  {
  }

  lemma ToSetNone()
    ensures ToSet([]) == {}
  {
  }

  lemma AddToBoth(a: set<int>, b: set<int>, x: int)
    requires a + {x} == b + {x}
    ensures {x} + a == {x} + b
  {
  }

  /** Before `t` in the recency list are the distinct tags used since `t`. */
  lemma {:induction false} RecencyPosition(ts: seq<int>, p: nat)
    requires p < |Recency(ts)|
    ensures ToSet(Recency(ts)[..p]) == DistinctSince(ts, Recency(ts)[p])
  {
    hide Recency, Remove, Distinct, DistinctSince, ToSet;
    RecencyOnce(ts);
    var init, x, r := ts[..|ts| - 1], ts[|ts| - 1], Recency(ts);
    var u := Recency(init);
    DistinctSinceOnce(ts, r[p]);
    if p == 0 {
      assert r[..0] == [];
      ToSetNone();
    } else {
      RecencyMembers(init);
      RemoveDistinct(u, x);
      RemoveIndex(u, x, p - 1);
      assert r[p] == Remove(u, x)[p - 1] && Remove(u, x)[p - 1] in Remove(u, x);
      var q := if x in u[..p] then p else p - 1;
      RecencyPosition(init, q);
      assert r[..p] == [x] + Remove(u, x)[..p - 1];
      ToSetCons(x, Remove(u, x)[..p - 1]);
      AddToBoth(ToSet(Remove(u, x)[..p - 1]), ToSet(u[..q]), x);
    }
  }

  lemma {:induction false} ToSetSize(l: seq<int>)
    requires Distinct(l)
    ensures |ToSet(l)| == |l|
  {
    if l != [] {
      assert l == [l[0]] + l[1..];
      DistinctCons(l[0], l[1..]);
      ToSetCons(l[0], l[1..]);
      ToSetSize(l[1..]);
    }
  }

  lemma InTakeIffDistance(ts: seq<int>, t: int, ways: nat)
    ensures t in Take(Recency(ts), ways) <==> t in ts && |DistinctSince(ts, t)| < ways
  {
    var r := Recency(ts);
    RecencyMembers(ts);
    if t in r {
      var p :| 0 <= p < |r| && r[p] == t;
      RecencyPosition(ts, p);
      ToSetSize(r[..p]);
      assert |DistinctSince(ts, t)| == p;
      if p < ways {
        assert Take(r, ways)[p] == t;
      }
    }
  }

  /** For every trace: an access hits exactly when its block was used before and fewer than `ways` other blocks
      of its set have been used since. */
  lemma HitIffReuseDistance(g: Geometry, ways: nat, trace: seq<Access>, rango: Option<(int, int)>, k: nat)
    requires ways > 0 && k < |trace|
    ensures Shaped(Initial(g, ways), g, ways)
    ensures var ev := Run(Initial(g, ways), g, ways, trace, rango).1[k];
      var ts := SetTags(g, trace[..k], ev.set_);
      ev.out.Hit? <==> ev.tag in ts && |DistinctSince(ts, ev.tag)| < ways
  {
    SameOutcomes(g, ways, trace, rango, k);
    var i := g.SetOf(trace[k].dir);
    LruIsPrefix(g, ways, trace[..k], i);
    InTakeIffDistance(SetTags(g, trace[..k], i), g.TagOf(trace[k].dir), ways);
  }

  // ----- inclusion -----

  /** Blocks resident in a cache are resident in every cache of at least its associativity, after every trace. */
  lemma Inclusion(g: Geometry, a: nat, b: nat, trace: seq<Access>, i: nat, tag: int)
    requires 0 < a <= b && i < g.Sets()
    ensures Shaped(Initial(g, a), g, a) && Shaped(Initial(g, b), g, b)
    ensures Resident(Run(Initial(g, a), g, a, trace, None).0.sets[i], tag)
      ==> Resident(Run(Initial(g, b), g, b, trace, None).0.sets[i], tag)
  {
    hide Resident;
    RefinesLru(g, a, trace, None);
    RefinesLru(g, b, trace, None);
    LruIsPrefix(g, a, trace, i);
    LruIsPrefix(g, b, trace, i);
    var u := Recency(SetTags(g, trace, i));
    assert tag in Take(u, a) ==> tag in Take(u, b);
    assert Represents(Run(Initial(g, a), g, a, trace, None).0.sets[i], LruRun(g, a, trace)[i]);
    assert Represents(Run(Initial(g, b), g, b, trace, None).0.sets[i], LruRun(g, b, trace)[i]);
  }

  /** Misses of either kind never increase with associativity. */
  lemma {:induction false} MissesNeverIncrease(g: Geometry, a: nat, b: nat, trace: seq<Access>)
    requires 0 < a <= b
    ensures Shaped(Initial(g, a), g, a) && Shaped(Initial(g, b), g, b)
    ensures var ma, mb := Run(Initial(g, a), g, a, trace, None).0.metricas,
        Run(Initial(g, b), g, b, trace, None).0.metricas;
      ma.missesRead >= mb.missesRead && ma.missesWrite >= mb.missesWrite
  {
    InitialShaped(g, a);
    InitialShaped(g, b);
    if trace != [] {
      hide SetStep, Resident;
      var k := |trace| - 1;
      MissesNeverIncrease(g, a, b, trace[..k]);
      HitIffReuseDistance(g, a, trace, None, k);
      HitIffReuseDistance(g, b, trace, None, k);
      SameOutcomes(g, a, trace, None, k);
      SameOutcomes(g, b, trace, None, k);
    }
  }
}
