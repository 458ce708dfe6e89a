/** The simulator's timestamps implement LRU: refinement of a recency list, inclusion, reuse distance. */
module CacheLru {
  import opened Options
  import opened CacheModel

  // ----- what every reachable set satisfies -----

  /** The valid lines are exactly those below `ocupadas`; their tags and their stamps are distinct;
      no stamp is later than the clock; invalid lines are clean. */
  ghost predicate Good(s: Conjunto, clock: nat) {
    && s.ocupadas <= |s.lineas|
    && (forall i :: 0 <= i < |s.lineas| ==> (s.lineas[i].valido <==> i < s.ocupadas))
    && (forall i :: 0 <= i < s.ocupadas ==> s.lineas[i].ciclo <= clock)
    && (forall i :: s.ocupadas <= i < |s.lineas| ==> !s.lineas[i].dirty)
    && (forall i, j :: 0 <= i < j < s.ocupadas ==>
          s.lineas[i].tag != s.lineas[j].tag && s.lineas[i].ciclo != s.lineas[j].ciclo)
  }

  predicate Resident(s: Conjunto, tag: int) { Find(s.lineas, tag) < |s.lineas| }

  /** The scans agree: a hit is updated where it was found, although the update ignores `valido`,
      and a miss is loaded at index `lineas_ocupadas`. */
  lemma ScansAgree(s: Conjunto, clock: nat, tag: int, verboso: Option<int>)
    requires Good(s, clock)
    ensures FirstInvalid(s.lineas) == s.ocupadas
    ensures var i := Find(s.lineas, tag);
      i < |s.lineas| ==>
        i < s.ocupadas && FindTag(s.lineas[i := Marked(s.lineas[i], verboso)], tag) == i == FindTag(s.lineas, tag)
  {
    assert s.ocupadas < |s.lineas| ==> !s.lineas[s.ocupadas].valido;
    var i := Find(s.lineas, tag);
    if i < |s.lineas| {
      var ls := s.lineas[i := Marked(s.lineas[i], verboso)];
      assert s.lineas[i].valido && ls[i].tag == tag;
      assert forall j :: 0 <= j < i ==> s.lineas[j].tag != s.lineas[i].tag;
    }
  }

  /** Where an access leaves its line, stamped later than every other line and no later than the new clock. */
  lemma StepShape(s: Conjunto, clock: nat, tag: int, instr: char, verboso: Option<int>)
    requires Good(s, clock) && s.lineas != []
    ensures var (t, out) := SetStep(s, tag, clock, instr, verboso);
      var i := if out.Hit? then Find(s.lineas, tag) else if out.Fill? then s.ocupadas else Oldest(s.lineas);
      && i < |s.lineas| && |t.lineas| == |s.lineas| && t.lineas == s.lineas[i := t.lineas[i]]
      && t.lineas[i].tag == tag && t.lineas[i].valido && clock < t.lineas[i].ciclo <= clock + out.Cost()
      && (out.Hit? <==> Resident(s, tag)) && (out.Hit? ==> i < s.ocupadas && out.wasDirty == s.lineas[i].dirty)
      && (out.Fill? <==> !Resident(s, tag) && s.ocupadas < |s.lineas|)
      && (out.Evict? ==> i < s.ocupadas == |s.lineas| && out.tag == s.lineas[i].tag && out.dirty == s.lineas[i].dirty)
      && t.ocupadas == (if out.Fill? then s.ocupadas + 1 else s.ocupadas)
      && t.lineas[i].dirty == (instr != LECTURA || (out.Hit? && out.wasDirty))
      && t.lineas[i].ciclo ==
         clock + (if out.Hit? then 1 else if out.Evict? && out.dirty && instr != LECTURA then 201 else 101)
      && t.lineas[i].operacion == (if verboso.Some? then verboso.value else s.lineas[i].operacion)
  {
    hide Find, FindTag, Oldest, FirstInvalid;
    ScansAgree(s, clock, tag, verboso);
  }

  lemma StepGood(s: Conjunto, clock: nat, tag: int, instr: char, verboso: Option<int>)
    requires Good(s, clock) && s.lineas != []
    ensures var (t, out) := SetStep(s, tag, clock, instr, verboso); Good(t, clock + out.Cost())
  {
    hide SetStep, Find, Oldest;
    StepShape(s, clock, tag, instr, verboso);
    var (t, out) := SetStep(s, tag, clock, instr, verboso);
    var f := Find(s.lineas, tag);
    if !out.Hit? {
      assert forall j :: 0 <= j < s.ocupadas ==> s.lineas[j].tag != tag;
    }
  }

  lemma GoodLater(s: Conjunto, clock: nat, later: nat)
    requires Good(s, clock) && clock <= later
    ensures Good(s, later)
  {
  }

  // ----- the recency list -----

  function Remove(l: seq<int>, t: int): (r: seq<int>)
    ensures |r| <= |l|
  {
    if l == [] then [] else if l[0] == t then l[1..] else [l[0]] + Remove(l[1..], t)
  }

  function Take(l: seq<int>, n: nat): seq<int> { if |l| <= n then l else l[..n] }

  /** LRU on a list of at most `ways` tags, most recent first. */
  function Touch(l: seq<int>, t: int, ways: nat): seq<int> {
    if t in l then [t] + Remove(l, t) else Take([t] + l, ways)
  }

  /** The stamp of a resident tag. */
  function Stamp(s: Conjunto, tag: int): nat {
    var i := Find(s.lineas, tag);
    if i < |s.lineas| then s.lineas[i].ciclo else 0
  }

  /** `l` lists the resident tags by decreasing stamp. */
  ghost predicate Represents(s: Conjunto, l: seq<int>) {
    && |l| == s.ocupadas
    && (forall t :: t in l <==> Resident(s, t))
    && Descending(s, l)
  }

  ghost predicate Descending(s: Conjunto, l: seq<int>) {
    forall p, q :: 0 <= p < q < |l| ==> Stamp(s, l[p]) > Stamp(s, l[q])
  }

  lemma RemoveOnce(l: seq<int>, t: int)
    ensures Remove(l, t) == if l == [] then [] else if l[0] == t then l[1..] else [l[0]] + Remove(l[1..], t)
  {
  }

  lemma DescendingCons(s: Conjunto, x: int, l: seq<int>)
    ensures Descending(s, [x] + l) <==> Descending(s, l) && forall u :: u in l ==> Stamp(s, x) > Stamp(s, u)
  {
    hide Stamp;
    var m := [x] + l;
    assert forall q :: 0 <= q < |l| ==> m[q + 1] == l[q];
    if Descending(s, m) {
      forall p, q | 0 <= p < q < |l| ensures Stamp(s, l[p]) > Stamp(s, l[q]) {
        assert Stamp(s, m[p + 1]) > Stamp(s, m[q + 1]);
      }
      forall u | u in l ensures Stamp(s, x) > Stamp(s, u) {
        var q :| 0 <= q < |l| && l[q] == u;
        assert Stamp(s, m[0]) > Stamp(s, m[q + 1]);
      }
    }
  }

  lemma {:induction false} RemoveFacts(s: Conjunto, l: seq<int>, t: int)
    requires Descending(s, l)
    ensures forall u :: u in Remove(l, t) <==> u in l && u != t
    ensures |Remove(l, t)| == if t in l then |l| - 1 else |l|
    ensures Descending(s, Remove(l, t))
  {
    hide Stamp, Descending, Remove;
    RemoveOnce(l, t);
    if l != [] {
      var tail := l[1..];
      assert l == [l[0]] + tail;
      DescendingCons(s, l[0], tail);
      RemoveFacts(s, tail, t);
      if l[0] != t {
        DescendingCons(s, l[0], Remove(tail, t));
      }
    }
  }

  /** The line of a resident tag. */
  lemma FindIs(s: Conjunto, clock: nat, i: nat)
    requires Good(s, clock) && i < s.ocupadas
    ensures Find(s.lineas, s.lineas[i].tag) == i
  {
    var j := Find(s.lineas, s.lineas[i].tag);
    assert s.lineas[i].valido;
  }

  lemma StampOfResident(s: Conjunto, clock: nat, u: int)
    requires Good(s, clock)
    ensures Resident(s, u) ==> Find(s.lineas, u) < s.ocupadas && Stamp(s, u) <= clock
  {
    var j := Find(s.lineas, u);
    assert j < |s.lineas| ==> s.lineas[j].valido;
  }

  /** Lines other than the one written keep their tags and stamps. */
  lemma StampElsewhere(s: Conjunto, t: Conjunto, clock: nat, later: nat, i: nat, u: int)
    requires Good(s, clock) && Good(t, later) && i < |s.lineas| == |t.lineas| && s.ocupadas <= t.ocupadas
    requires t.lineas == s.lineas[i := t.lineas[i]] && t.lineas[i].valido && t.lineas[i].tag != u
    requires i < s.ocupadas ==> s.lineas[i].tag != u
    ensures Resident(t, u) == Resident(s, u) && Stamp(t, u) == Stamp(s, u)
  {
    StampOfResident(s, clock, u);
    StampOfResident(t, later, u);
    assert forall k :: 0 <= k < |t.lineas| && k != i ==> t.lineas[k] == s.lineas[k];
    if Resident(s, u) {
      FindIs(t, later, Find(s.lineas, u));
    }
  }

  /** The victim of an eviction is older than every other resident tag, and gone afterwards. */
  lemma VictimFacts(s: Conjunto, clock: nat, tag: int, instr: char, verboso: Option<int>)
    requires Good(s, clock) && s.lineas != [] && SetStep(s, tag, clock, instr, verboso).1.Evict?
    ensures var (t, out) := SetStep(s, tag, clock, instr, verboso);
      && out.tag != tag && Resident(s, out.tag) && !Resident(t, out.tag)
      && forall u :: Resident(s, u) && u != out.tag ==> Stamp(s, u) > Stamp(s, out.tag)
  {
    hide SetStep;
    StepShape(s, clock, tag, instr, verboso);
    var (t, out) := SetStep(s, tag, clock, instr, verboso);
    var i := Oldest(s.lineas);
    FindIs(s, clock, i);
    assert forall k :: 0 <= k < |s.lineas| && k != i ==>
        s.lineas[k].tag != s.lineas[i].tag && t.lineas[k] == s.lineas[k];
    forall u | Resident(s, u) && u != out.tag ensures Stamp(s, u) > Stamp(s, out.tag) {
      StampOfResident(s, clock, u);
      var j := Find(s.lineas, u);
      assert j != i && s.lineas[j].ciclo != s.lineas[i].ciclo;
    }
  }

  /** The stamp of every tag after a step: the accessed tag is newest, the others keep theirs. */
  lemma StampsAfter(s: Conjunto, clock: nat, tag: int, instr: char, verboso: Option<int>)
    requires Good(s, clock) && s.lineas != []
    ensures var (t, out) := SetStep(s, tag, clock, instr, verboso);
      && Resident(t, tag) && Stamp(t, tag) > clock
      && (forall u :: u != tag && !(out.Evict? && u == out.tag) ==>
            Resident(t, u) == Resident(s, u) && Stamp(t, u) == Stamp(s, u))
      && (forall u :: Resident(s, u) ==> Stamp(s, u) <= clock)
  {
    hide SetStep;
    StepShape(s, clock, tag, instr, verboso);
    StepGood(s, clock, tag, instr, verboso);
    var (t, out) := SetStep(s, tag, clock, instr, verboso);
    var i := if out.Hit? then Find(s.lineas, tag) else if out.Fill? then s.ocupadas else Oldest(s.lineas);
    FindIs(t, clock + out.Cost(), i);
    forall u | Resident(s, u) ensures Stamp(s, u) <= clock {
      StampOfResident(s, clock, u);
    }
    forall u | u != tag && !(out.Evict? && u == out.tag)
      ensures Resident(t, u) == Resident(s, u) && Stamp(t, u) == Stamp(s, u)
    {
      StampElsewhere(s, t, clock, clock + out.Cost(), i, u);
    }
  }

  /** One access on the timestamps is one access on the recency list: same hit or miss, same victim. */
  lemma StepRefines(s: Conjunto, clock: nat, tag: int, instr: char, verboso: Option<int>, l: seq<int>)
    requires Good(s, clock) && s.lineas != [] && Represents(s, l)
    ensures var (t, out) := SetStep(s, tag, clock, instr, verboso);
      && Represents(t, Touch(l, tag, |s.lineas|))
      && (out.Hit? <==> tag in l)
      && (out.Evict? <==> tag !in l && |l| == |s.lineas|)
      && (out.Evict? ==> l != [] && out.tag == l[|l| - 1])
  {
    hide SetStep, Find, Resident, Stamp, Good, Represents, Remove;
    var (t, out) := SetStep(s, tag, clock, instr, verboso);
    StepShape(s, clock, tag, instr, verboso);
    StampsAfter(s, clock, tag, instr, verboso);
    assert (tag in l <==> Resident(s, tag)) && |l| == s.ocupadas by { ListFacts(s, l); }
    if out.Evict? {
      VictimFacts(s, clock, tag, instr, verboso);
      VictimIsLast(s, l, out.tag);
      EvictRefines(s, t, clock, tag, l, out.tag);
      assert Touch(l, tag, |s.lineas|) == [tag] + l[..|l| - 1];
    } else {
      HitOrFillRefines(s, t, clock, tag, l);
    }
  }

  lemma ListFacts(s: Conjunto, l: seq<int>)
    requires Represents(s, l)
    ensures |l| == s.ocupadas && Descending(s, l) && forall u :: u in l <==> Resident(s, u)
  {
  }

  lemma EvictRefines(s: Conjunto, t: Conjunto, clock: nat, tag: int, l: seq<int>, v: int)
    requires Represents(s, l) && l != [] && l[|l| - 1] == v && v !in l[..|l| - 1] && v != tag
      && t.ocupadas == s.ocupadas
    requires Resident(t, tag) && Stamp(t, tag) > clock && !Resident(t, v)
    requires forall u :: u != tag && u != v ==> Resident(t, u) == Resident(s, u) && Stamp(t, u) == Stamp(s, u)
    requires forall u :: Resident(s, u) ==> Stamp(s, u) <= clock
    requires !Resident(s, tag)
    ensures Represents(t, [tag] + l[..|l| - 1])
  {
    hide Stamp, Resident;
    var rest := l[..|l| - 1];
    assert Descending(s, rest);
    assert forall u :: u in rest <==> u in l && u != v by { InitMembers(l); }
    NewestFirst(s, t, rest, clock, tag);
  }

  lemma InitMembers(l: seq<int>)
    requires l != []
    ensures forall u :: u in l <==> u in l[..|l| - 1] || u == l[|l| - 1]
  {
    assert l == l[..|l| - 1] + [l[|l| - 1]];
  }

  lemma HitOrFillRefines(s: Conjunto, t: Conjunto, clock: nat, tag: int, l: seq<int>)
    requires Represents(s, l) && t.ocupadas == s.ocupadas + (if Resident(s, tag) then 0 else 1)
    requires Resident(t, tag) && Stamp(t, tag) > clock
    requires forall u :: u != tag ==> Resident(t, u) == Resident(s, u) && Stamp(t, u) == Stamp(s, u)
    requires forall u :: Resident(s, u) ==> Stamp(s, u) <= clock
    ensures Represents(t, if tag in l then [tag] + Remove(l, tag) else [tag] + l)
  {
    hide Stamp, Resident;
    RemoveFacts(s, l, tag);
    NewestFirst(s, t, if tag in l then Remove(l, tag) else l, clock, tag);
  }

  /** Putting the newest tag in front of others whose stamps did not change keeps the order. */
  lemma NewestFirst(s: Conjunto, t: Conjunto, rest: seq<int>, clock: nat, tag: int)
    requires Descending(s, rest) && Stamp(t, tag) > clock
    requires forall u :: u in rest ==> Stamp(t, u) == Stamp(s, u) <= clock
    ensures Descending(t, [tag] + rest)
  {
    hide Stamp;
    var m := [tag] + rest;
    forall p, q | 0 <= p < q < |m| ensures Stamp(t, m[p]) > Stamp(t, m[q]) {
      assert m[q] == rest[q - 1] && rest[q - 1] in rest;
      if p > 0 {
        assert m[p] == rest[p - 1] && rest[p - 1] in rest;
      }
    }
  }

  lemma VictimIsLast(s: Conjunto, l: seq<int>, v: int)
    requires Represents(s, l) && Resident(s, v)
    requires forall u :: Resident(s, u) && u != v ==> Stamp(s, u) > Stamp(s, v)
    ensures l != [] && l[|l| - 1] == v
    ensures v !in l[..|l| - 1]
  {
    hide Stamp, Resident;
    assert v in l;
    var last := l[|l| - 1];
    assert last in l;
    forall q | 0 <= q < |l| - 1 ensures l[q] != v {
      assert Stamp(s, l[q]) > Stamp(s, last) >= Stamp(s, v);
    }
  }

  // ----- whole traces -----

  ghost predicate AllGood(c: Cache) {
    forall i :: 0 <= i < |c.sets| ==> Good(c.sets[i], c.ciclos)
  }

  /** One recency list per set. */
  type Lru = seq<seq<int>>

  function LruRun(g: Geometry, ways: nat, trace: seq<Access>): (r: Lru)
    ensures |r| == g.Sets()
  {
    if trace == [] then seq(g.Sets(), _ => [])
    else
      var l, a := LruRun(g, ways, trace[..|trace| - 1]), trace[|trace| - 1];
      l[g.SetOf(a.dir) := Touch(l[g.SetOf(a.dir)], g.TagOf(a.dir), ways)]
  }

  ghost predicate AllRepresent(c: Cache, l: Lru) {
    |l| == |c.sets| && forall i :: 0 <= i < |l| ==> Represents(c.sets[i], l[i])
  }

  lemma CacheStepGood(c: Cache, g: Geometry, ways: nat, a: Access, verboso: Option<int>)
    requires Shaped(c, g, ways) && AllGood(c)
    ensures AllGood(Step(c, g, ways, a, verboso).0)
  {
    hide SetStep, Good;
    var i := g.SetOf(a.dir);
    StepGood(c.sets[i], c.ciclos, g.TagOf(a.dir), a.instr, verboso);
    var d := Step(c, g, ways, a, verboso).0;
    forall j | 0 <= j < |d.sets| ensures Good(d.sets[j], d.ciclos) {
      if j != i {
        GoodLater(c.sets[j], c.ciclos, d.ciclos);
      }
    }
  }

  lemma InitialGood(g: Geometry, ways: nat)
    requires ways > 0
    ensures AllGood(Initial(g, ways)) && AllRepresent(Initial(g, ways), LruRun(g, ways, []))
  {
    var s := Initial(g, ways).sets[0];
    assert forall i :: 0 <= i < |s.lineas| ==> !s.lineas[i].valido;
  }

  /** For every trace, the reachable cache is good, and it is the LRU cache. */
  lemma {:induction false} RefinesLru(g: Geometry, ways: nat, trace: seq<Access>, rango: Option<(int, int)>)
    requires ways > 0
    ensures Shaped(Initial(g, ways), g, ways)
    ensures var (c, _) := Run(Initial(g, ways), g, ways, trace, rango);
      AllGood(c) && AllRepresent(c, LruRun(g, ways, trace))
  {
    InitialShaped(g, ways);
    if trace == [] {
      InitialGood(g, ways);
    } else {
      var k := |trace| - 1;
      RefinesLru(g, ways, trace[..k], rango);
      var c := Run(Initial(g, ways), g, ways, trace[..k], rango).0;
      CacheStepGood(c, g, ways, trace[k], Verbosity(rango, k));
      CacheStepRefines(c, g, ways, trace[k], Verbosity(rango, k), LruRun(g, ways, trace[..k]));
    }
  }

  lemma CacheStepRefines(c: Cache, g: Geometry, ways: nat, a: Access, verboso: Option<int>, l: Lru)
    requires Shaped(c, g, ways) && AllGood(c) && AllRepresent(c, l)
    ensures var i := g.SetOf(a.dir);
      var (d, ev) := Step(c, g, ways, a, verboso);
      && AllRepresent(d, l[i := Touch(l[i], g.TagOf(a.dir), ways)])
      && (ev.out.Hit? <==> g.TagOf(a.dir) in l[i])
      && (ev.out.Evict? <==> g.TagOf(a.dir) !in l[i] && |l[i]| == ways)
      && (ev.out.Evict? ==> l[i] != [] && ev.out.tag == l[i][|l[i]| - 1])
      && ev.write == (a.instr != LECTURA)
  {
    hide SetStep, Good, Represents, Touch;
    var i := g.SetOf(a.dir);
    StepRefines(c.sets[i], c.ciclos, g.TagOf(a.dir), a.instr, verboso, l[i]);
  }

  /** Each access of every trace hits, misses and evicts exactly as LRU does. */
  lemma SameOutcomes(g: Geometry, ways: nat, trace: seq<Access>, rango: Option<(int, int)>, k: nat)
    requires ways > 0 && k < |trace|
    ensures Shaped(Initial(g, ways), g, ways)
    ensures var ev := Run(Initial(g, ways), g, ways, trace, rango).1[k];
      var l := LruRun(g, ways, trace[..k])[g.SetOf(trace[k].dir)];
      && ev.set_ == g.SetOf(trace[k].dir) && ev.tag == g.TagOf(trace[k].dir) && ev.write == (trace[k].instr != LECTURA)
      && (ev.out.Hit? <==> ev.tag in l)
      && (ev.out.Evict? <==> ev.tag !in l && |l| == ways)
      && (ev.out.Evict? ==> l != [] && ev.out.tag == l[|l| - 1])
  {
    hide Touch, AllGood, AllRepresent, SetStep, Run, LruRun, Initial;
    RefinesLru(g, ways, trace[..k], rango);
    EventAt(Initial(g, ways), g, ways, trace, rango, k);
    var c := Run(Initial(g, ways), g, ways, trace[..k], rango).0;
    CacheStepRefines(c, g, ways, trace[k], Verbosity(rango, k), LruRun(g, ways, trace[..k]));
  }

  /** From `c` to `d` only line `i` of set `s` changes: it holds `tag`, is the newest line, and is marked with `n`,
      if any. */
  ghost predicate OneLine(c: Cache, d: Cache, s: nat, i: nat, tag: int, n: Option<int>) {
    && s < |c.sets| == |d.sets| && i < |c.sets[s].lineas| == |d.sets[s].lineas|
    && (forall j :: 0 <= j < |c.sets| && j != s ==> d.sets[j] == c.sets[j])
    && (forall j :: 0 <= j < |c.sets[s].lineas| && j != i ==> d.sets[s].lineas[j] == c.sets[s].lineas[j])
    && var l := d.sets[s].lineas[i];
      l.tag == tag && l.valido && c.ciclos < l.ciclo <= d.ciclos
      && l.operacion == if n.Some? then n.value else c.sets[s].lineas[i].operacion
  }

  ghost predicate OneChange(c: Cache, d: Cache, s: nat, tag: int, n: Option<int>) {
    exists i :: OneLine(c, d, s, i, tag, n)
  }

  lemma StepMarks(c: Cache, g: Geometry, ways: nat, a: Access, verboso: Option<int>)
    requires Shaped(c, g, ways) && AllGood(c)
    ensures OneChange(c, Step(c, g, ways, a, verboso).0, g.SetOf(a.dir), g.TagOf(a.dir), verboso)
  {
    hide SetStep, Find, Oldest, Actualizadas;
    var s, tag := c.sets[g.SetOf(a.dir)], g.TagOf(a.dir);
    StepShape(s, c.ciclos, tag, a.instr, verboso);
    var out := SetStep(s, tag, c.ciclos, a.instr, verboso).1;
    var i := if out.Hit? then Find(s.lineas, tag) else if out.Fill? then s.ocupadas else Oldest(s.lineas);
    assert OneLine(c, Step(c, g, ways, a, verboso).0, g.SetOf(a.dir), i, tag, verboso);
  }

  /** An access changes one line of the cache, and marks it with its number when that is in the range. */
  lemma LastOperation(g: Geometry, ways: nat, trace: seq<Access>, rango: Option<(int, int)>)
    requires ways > 0 && trace != []
    ensures Shaped(Initial(g, ways), g, ways)
    ensures var k := |trace| - 1;
      var c := Run(Initial(g, ways), g, ways, trace[..k], rango).0;
      var d := Run(Initial(g, ways), g, ways, trace, rango).0;
      var n := if rango.Some? && rango.value.0 <= k <= rango.value.1 then Some(k) else None;
      OneChange(c, d, g.SetOf(trace[k].dir), g.TagOf(trace[k].dir), n)
  {
    hide AllRepresent, AllGood, Initial, Step, OneChange;
    var k := |trace| - 1;
    RefinesLru(g, ways, trace[..k], rango);
    StepMarks(Run(Initial(g, ways), g, ways, trace[..k], rango).0, g, ways, trace[k], Verbosity(rango, k));
  }

  /** Event `k` of a run is the step taken from the state after the first `k` accesses. */
  lemma {:induction false} EventAt(c: Cache, g: Geometry, ways: nat, trace: seq<Access>, rango: Option<(int, int)>,
      k: nat)
    requires Shaped(c, g, ways) && k < |trace|
    ensures Run(c, g, ways, trace, rango).1[k]
         == Step(Run(c, g, ways, trace[..k], rango).0, g, ways, trace[k], Verbosity(rango, k)).1
  {
    hide Step, Shaped;
    if k < |trace| - 1 {
      EventAt(c, g, ways, trace[..|trace| - 1], rango, k);
      assert trace[..|trace| - 1][..k] == trace[..k];
    }
  }
}
