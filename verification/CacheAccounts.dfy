/** What the metrics of a run add up to, where dirty data goes, and that verbose output changes neither. */
module CacheAccounts {
  import opened Options
  import opened CacheModel
  import opened CacheLru

  // ----- counting events -----

  function Count(evs: seq<Event>, p: Event -> bool): nat {
    if evs == [] then 0 else Count(evs[..|evs| - 1], p) + (if p(evs[|evs| - 1]) then 1 else 0)
  }

  lemma CountSnoc(evs: seq<Event>, e: Event, p: Event -> bool)
    ensures Count(evs + [e], p) == Count(evs, p) + (if p(e) then 1 else 0)
  {
    assert (evs + [e])[..|evs|] == evs;
  }

  predicate IsRead(e: Event) { !e.write }
  predicate IsWrite(e: Event) { e.write }
  predicate IsReadMiss(e: Event) { !e.write && !e.out.Hit? }
  predicate IsWriteMiss(e: Event) { e.write && !e.out.Hit? }
  predicate IsDirtyReadMiss(e: Event) { !e.write && e.out.Evict? && e.out.dirty }
  predicate IsDirtyWriteMiss(e: Event) { e.write && e.out.Evict? && e.out.dirty }
  predicate IsMiss(e: Event) { !e.out.Hit? }
  predicate IsEviction(e: Event) { e.out.Evict? }
  predicate IsDirtyEviction(e: Event) { e.out.Evict? && e.out.dirty }

  /** A write that makes a clean line, or a newly loaded one, dirty. */
  predicate IsNewlyDirty(e: Event) { e.write && (e.out.Hit? ==> !e.out.wasDirty) }

  // ----- the metrics in closed form -----

  ghost predicate Balanced(m: Metricas, evs: seq<Event>, clock: nat, block: nat) {
    && m.lecturas == Count(evs, IsRead)
    && m.escrituras == Count(evs, IsWrite)
    && m.missesRead == Count(evs, IsReadMiss)
    && m.missesWrite == Count(evs, IsWriteMiss)
    && m.dirtyReadMiss == Count(evs, IsDirtyReadMiss)
    && m.dirtyWriteMiss == Count(evs, IsDirtyWriteMiss)
    && m.ciclosLecturas == m.lecturas + MISS_PENALTY * (m.missesRead + m.dirtyReadMiss)
    && m.ciclosEscrituras == m.escrituras + MISS_PENALTY * (m.missesWrite + m.dirtyWriteMiss)
    && clock == m.ciclosLecturas + m.ciclosEscrituras
    && m.bytesRead == block * (m.missesRead + m.missesWrite)
    && m.bytesWritten == block * (m.dirtyReadMiss + m.dirtyWriteMiss)
  }

  lemma BalanceStep(m: Metricas, evs: seq<Event>, clock: nat, block: nat, e: Event, instr: char)
    requires Balanced(m, evs, clock, block) && e.write == (instr != LECTURA)
    ensures var n := Actualizadas(m, instr, e.out.Hit?, e.out.Resultado(), block);
      Balanced(n, evs + [e], clock + e.out.Cost(), block)
  {
    hide Count;
    CountSnoc(evs, e, IsRead);
    CountSnoc(evs, e, IsWrite);
    CountSnoc(evs, e, IsReadMiss);
    CountSnoc(evs, e, IsWriteMiss);
    CountSnoc(evs, e, IsDirtyReadMiss);
    CountSnoc(evs, e, IsDirtyWriteMiss);
    Times(block, m.missesRead + m.missesWrite);
    Times(block, m.dirtyReadMiss + m.dirtyWriteMiss);
  }

  lemma Times(b: nat, n: nat)
    ensures b * (n + 1) == b * n + b
  {
  }

  /** Every metric of every run, from the events of the run. */
  lemma {:induction false} MetricsBalance(g: Geometry, ways: nat, trace: seq<Access>, rango: Option<(int, int)>)
    requires ways > 0
    ensures Shaped(Initial(g, ways), g, ways)
    ensures var (c, evs) := Run(Initial(g, ways), g, ways, trace, rango);
      Balanced(c.metricas, evs, c.ciclos, g.Block())
  {
    hide Balanced, SetStep, Actualizadas;
    InitialShaped(g, ways);
    if trace == [] {
      InitialBalanced(g.Block());
    } else {
      var k := |trace| - 1;
      MetricsBalance(g, ways, trace[..k], rango);
      var (c, evs) := Run(Initial(g, ways), g, ways, trace[..k], rango);
      BalanceStep(c.metricas, evs, c.ciclos, g.Block(), Step(c, g, ways, trace[k], Verbosity(rango, k)).1,
        trace[k].instr);
    }
  }

  lemma InitialBalanced(block: nat)
    ensures Balanced(SIN_ACCESOS, [], 0, block)
  {
  }

  // ----- conservation of lines and of dirty data -----

  function Sum<T>(xs: seq<T>, f: T -> nat): nat {
    if xs == [] then 0 else f(xs[0]) + Sum(xs[1..], f)
  }

  lemma {:induction false} SumUpdate<T>(xs: seq<T>, f: T -> nat, i: nat, x: T)
    requires i < |xs|
    ensures Sum(xs[i := x], f) == Sum(xs, f) - f(xs[i]) + f(x)
  {
    if i > 0 {
      assert xs[i := x][1..] == xs[1..][i - 1 := x];
      SumUpdate(xs[1..], f, i - 1, x);
    } else {
      assert xs[i := x][1..] == xs[1..];
    }
  }

  lemma {:induction false} SumZero<T>(xs: seq<T>, f: T -> nat)
    requires forall i :: 0 <= i < |xs| ==> f(xs[i]) == 0
    ensures Sum(xs, f) == 0
  {
    if xs != [] { SumZero(xs[1..], f); }
  }

  function DirtyBit(l: Linea): nat { if l.dirty then 1 else 0 }
  function DirtyLines(s: Conjunto): nat { Sum(s.lineas, DirtyBit) }
  function ValidBit(l: Linea): nat { if l.valido then 1 else 0 }
  function ValidLines(s: Conjunto): nat { Sum(s.lineas, ValidBit) }

  /** Over any run: misses are evictions plus lines now valid, and lines made dirty are dirty evictions plus lines now
      dirty. */
  lemma {:induction false} NothingLost(g: Geometry, ways: nat, trace: seq<Access>, rango: Option<(int, int)>)
    requires ways > 0
    ensures Shaped(Initial(g, ways), g, ways)
    ensures var (c, evs) := Run(Initial(g, ways), g, ways, trace, rango);
      && Count(evs, IsMiss) == Count(evs, IsEviction) + Sum(c.sets, ValidLines)
      && Count(evs, IsNewlyDirty) == Count(evs, IsDirtyEviction) + Sum(c.sets, DirtyLines)
  {
    hide SetStep, Actualizadas, AllGood, AllRepresent, IsMiss, IsEviction, IsNewlyDirty, IsDirtyEviction, DirtyLines,
      ValidLines;
    InitialShaped(g, ways);
    if trace == [] {
      InitialSums(g, ways);
    } else {
      var k := |trace| - 1;
      NothingLost(g, ways, trace[..k], rango);
      RefinesLru(g, ways, trace[..k], rango);
      var (c, evs) := Run(Initial(g, ways), g, ways, trace[..k], rango);
      StepAccounts(c, g, ways, trace[k], Verbosity(rango, k), evs);
    }
  }

  lemma InitialSums(g: Geometry, ways: nat)
    requires ways > 0
    ensures Sum(Initial(g, ways).sets, ValidLines) == 0 == Sum(Initial(g, ways).sets, DirtyLines)
  {
    var sets := Initial(g, ways).sets;
    SumZero(seq(ways, _ => VACIA), DirtyBit);
    SumZero(seq(ways, _ => VACIA), ValidBit);
    SumZero(sets, ValidLines);
    SumZero(sets, DirtyLines);
  }

  lemma StepAccounts(c: Cache, g: Geometry, ways: nat, a: Access, verboso: Option<int>, evs: seq<Event>)
    requires Shaped(c, g, ways) && AllGood(c)
    requires Count(evs, IsMiss) == Count(evs, IsEviction) + Sum(c.sets, ValidLines)
    requires Count(evs, IsNewlyDirty) == Count(evs, IsDirtyEviction) + Sum(c.sets, DirtyLines)
    ensures var (d, ev) := Step(c, g, ways, a, verboso);
      && Count(evs + [ev], IsMiss) == Count(evs + [ev], IsEviction) + Sum(d.sets, ValidLines)
      && Count(evs + [ev], IsNewlyDirty) == Count(evs + [ev], IsDirtyEviction) + Sum(d.sets, DirtyLines)
  {
    hide SetStep, Actualizadas, Good, Sum, Count;
    var (d, ev) := Step(c, g, ways, a, verboso);
    var i := g.SetOf(a.dir);
    StepShape(c.sets[i], c.ciclos, g.TagOf(a.dir), a.instr, verboso);
    SetAccounts(c.sets[i], c.ciclos, g.TagOf(a.dir), a.instr, verboso);
    SumUpdate(c.sets, ValidLines, i, d.sets[i]);
    SumUpdate(c.sets, DirtyLines, i, d.sets[i]);
    CountSnoc(evs, ev, IsMiss);
    CountSnoc(evs, ev, IsEviction);
    CountSnoc(evs, ev, IsNewlyDirty);
    CountSnoc(evs, ev, IsDirtyEviction);
  }

  lemma SetAccounts(s: Conjunto, clock: nat, tag: int, instr: char, verboso: Option<int>)
    requires Good(s, clock) && s.lineas != []
    ensures var (t, out) := SetStep(s, tag, clock, instr, verboso);
      var e := Event(0, tag, instr != LECTURA, out);
      && DirtyLines(t) + (if IsDirtyEviction(e) then 1 else 0) == DirtyLines(s) + (if IsNewlyDirty(e) then 1 else 0)
      && ValidLines(t) + (if IsEviction(e) then 1 else 0) == ValidLines(s) + (if IsMiss(e) then 1 else 0)
  {
    hide SetStep, Sum;
    StepShape(s, clock, tag, instr, verboso);
    var (t, out) := SetStep(s, tag, clock, instr, verboso);
    var i := if out.Hit? then Find(s.lineas, tag) else if out.Fill? then s.ocupadas else Oldest(s.lineas);
    SumUpdate(s.lineas, DirtyBit, i, t.lineas[i]);
    SumUpdate(s.lineas, ValidBit, i, t.lineas[i]);
  }

  // ----- no write is lost -----

  predicate DirtyResident(s: Conjunto, tag: int) {
    var i := Find(s.lineas, tag);
    i < |s.lineas| && s.lineas[i].dirty
  }

  lemma StepKeepsDirty(s: Conjunto, clock: nat, tag: int, instr: char, verboso: Option<int>, u: int)
    requires Good(s, clock) && s.lineas != []
    ensures var (t, out) := SetStep(s, tag, clock, instr, verboso);
      && (instr != LECTURA ==> DirtyResident(t, tag))
      && (DirtyResident(s, u) ==> DirtyResident(t, u) || out == Evict(u, true))
  {
    hide SetStep, Find, Oldest;
    StepShape(s, clock, tag, instr, verboso);
    StepGood(s, clock, tag, instr, verboso);
    var (t, out) := SetStep(s, tag, clock, instr, verboso);
    var i := if out.Hit? then Find(s.lineas, tag) else if out.Fill? then s.ocupadas else Oldest(s.lineas);
    FindIs(t, clock + out.Cost(), i);
    var j := Find(s.lineas, u);
    if j < |s.lineas| {
      StampOfResident(s, clock, u);
      if j != i {
        assert t.lineas[j] == s.lineas[j];
        FindIs(t, clock + out.Cost(), j);
      }
    }
  }

  /** After a write to a block, at every later point the block is resident and dirty,
      or a dirty eviction of it has been reported since. */
  lemma {:induction false} NoWriteLost(g: Geometry, ways: nat, trace: seq<Access>, rango: Option<(int, int)>, k: nat)
    requires ways > 0 && k < |trace| && trace[k].instr != LECTURA
    ensures Shaped(Initial(g, ways), g, ways)
    ensures var (c, evs) := Run(Initial(g, ways), g, ways, trace, rango);
      var i, tag := g.SetOf(trace[k].dir), g.TagOf(trace[k].dir);
      DirtyResident(c.sets[i], tag) || exists j :: k < j < |evs| && evs[j].set_ == i && evs[j].out == Evict(tag, true)
  {
    hide SetStep, Actualizadas, Good, DirtyResident, AllRepresent;
    InitialShaped(g, ways);
    var n := |trace| - 1;
    RefinesLru(g, ways, trace[..n], rango);
    var (c, evs) := Run(Initial(g, ways), g, ways, trace[..n], rango);
    var (d, ev) := Step(c, g, ways, trace[n], Verbosity(rango, n));
    var i, tag := g.SetOf(trace[k].dir), g.TagOf(trace[k].dir);
    var at := g.SetOf(trace[n].dir);
    StepKeepsDirty(c.sets[at], c.ciclos, g.TagOf(trace[n].dir), trace[n].instr, Verbosity(rango, n), tag);
    var all := Run(Initial(g, ways), g, ways, trace, rango).1;
    assert all == evs + [ev];
    if k < n {
      NoWriteLost(g, ways, trace[..n], rango, k);
      if !DirtyResident(c.sets[i], tag) {
        var j :| k < j < |evs| && evs[j].set_ == i && evs[j].out == Evict(tag, true);
        assert all[j] == evs[j];
      } else if i == at && ev.out == Evict(tag, true) {
        assert all[n] == ev;
      }
    }
  }

  // ----- verbose mode -----

  /** Equal but for `ultima_operacion`. */
  predicate SameLine(l: Linea, m: Linea) { l.(operacion := 0) == m.(operacion := 0) }

  ghost predicate SameSet(s: Conjunto, t: Conjunto) {
    && s.ocupadas == t.ocupadas && |s.lineas| == |t.lineas|
    && forall i :: 0 <= i < |s.lineas| ==> SameLine(s.lineas[i], t.lineas[i])
  }

  ghost predicate SameCache(c: Cache, d: Cache) {
    && c.ciclos == d.ciclos && c.metricas == d.metricas && |c.sets| == |d.sets|
    && forall i :: 0 <= i < |c.sets| ==> SameSet(c.sets[i], d.sets[i])
  }

  lemma SameScans(s: Conjunto, t: Conjunto, tag: int)
    requires SameSet(s, t)
    ensures |s.lineas| == |t.lineas| && Find(s.lineas, tag) == Find(t.lineas, tag)
      && FindTag(s.lineas, tag) == FindTag(t.lineas, tag)
    ensures FirstInvalid(s.lineas) == FirstInvalid(t.lineas)
    ensures s.lineas != [] ==> Oldest(s.lineas) == Oldest(t.lineas)
  {
    forall i | 0 <= i < |s.lineas|
      ensures s.lineas[i].valido == t.lineas[i].valido && s.lineas[i].tag == t.lineas[i].tag
        && s.lineas[i].ciclo == t.lineas[i].ciclo
    {
      assert SameLine(s.lineas[i], t.lineas[i]);
    }
  }

  lemma SameUpdate(s: Conjunto, t: Conjunto, i: nat, l: Linea, m: Linea)
    requires SameSet(s, t) && i < |s.lineas| && SameLine(l, m)
    ensures SameSet(s.(lineas := s.lineas[i := l]), t.(lineas := t.lineas[i := m]))
  {
  }

  lemma SameMarked(l: Linea, m: Linea, clock: nat, instr: char, v: Option<int>, w: Option<int>)
    requires SameLine(l, m)
    ensures SameLine(Marked(l, v), Marked(m, w)) && SameLine(Touched(l, clock, instr), Touched(m, clock, instr))
  {
  }

  lemma SameHit(s: Conjunto, t: Conjunto, tag: int, clock: nat, instr: char, v: Option<int>, w: Option<int>)
    requires SameSet(s, t) && Find(s.lineas, tag) < |s.lineas| && Find(t.lineas, tag) < |t.lineas|
    ensures SameSet(HitSet(s, tag, clock, instr, v), HitSet(t, tag, clock, instr, w))
  {
    hide SameSet, SameLine, Find, FindTag, Marked, Touched;
    SameScans(s, t, tag);
    var i := Find(s.lineas, tag);
    SameAt(s, t, i);
    SameMarked(s.lineas[i], t.lineas[i], clock, instr, v, w);
    var a := s.(lineas := s.lineas[i := Marked(s.lineas[i], v)]);
    var b := t.(lineas := t.lineas[i := Marked(t.lineas[i], w)]);
    SameUpdate(s, t, i, Marked(s.lineas[i], v), Marked(t.lineas[i], w));
    SameScans(a, b, tag);
    var j := FindTag(a.lineas, tag);
    if j < |a.lineas| {
      SameAt(a, b, j);
      SameMarked(a.lineas[j], b.lineas[j], clock, instr, v, w);
      SameUpdate(a, b, j, Touched(a.lineas[j], clock, instr), Touched(b.lineas[j], clock, instr));
    }
  }

  lemma SameAt(s: Conjunto, t: Conjunto, i: nat)
    requires SameSet(s, t) && i < |s.lineas|
    ensures |s.lineas| == |t.lineas| && SameLine(s.lineas[i], t.lineas[i])
  {
  }

  lemma SameMiss(s: Conjunto, t: Conjunto, tag: int, clock: nat, instr: char, v: Option<int>, w: Option<int>)
    requires SameSet(s, t) && s.lineas != [] && t.lineas != []
    ensures SameSet(MissSet(s, tag, clock, instr, v).0, MissSet(t, tag, clock, instr, w).0)
    ensures MissSet(s, tag, clock, instr, v).1 == MissSet(t, tag, clock, instr, w).1
  {
    SameScans(s, t, tag);
    var f := FirstInvalid(s.lineas);
    var i := if f < |s.lineas| then f else Oldest(s.lineas);
    SameAt(s, t, i);
    SameUpdate(s, t, i, Loaded(Marked(s.lineas[i], v), tag, clock, instr),
      Loaded(Marked(t.lineas[i], w), tag, clock, instr));
  }

  lemma SameStep(s: Conjunto, t: Conjunto, tag: int, clock: nat, instr: char, v: Option<int>, w: Option<int>)
    requires SameSet(s, t) && s.lineas != [] && t.lineas != []
    ensures SameSet(SetStep(s, tag, clock, instr, v).0, SetStep(t, tag, clock, instr, w).0)
    ensures SetStep(s, tag, clock, instr, v).1 == SetStep(t, tag, clock, instr, w).1
  {
    hide SameSet, MissSet, HitSet;
    SameScans(s, t, tag);
    if Find(s.lineas, tag) < |s.lineas| && Find(t.lineas, tag) < |t.lineas| {
      SameAt(s, t, Find(s.lineas, tag));
      SameHit(s, t, tag, clock, instr, v, w);
    } else {
      SameMiss(s, t, tag, clock, instr, v, w);
    }
  }

  /** Whatever range of operations is reported, a run has the same events and metrics, and the same state apart
      from `ultima_operacion`, as the simple simulation. */
  lemma {:induction false} VerboseChangesNothing(g: Geometry, ways: nat, trace: seq<Access>, rango: Option<(int, int)>)
    requires ways > 0
    ensures Shaped(Initial(g, ways), g, ways)
    ensures var (c, evs) := Run(Initial(g, ways), g, ways, trace, rango);
      var (d, fvs) := Run(Initial(g, ways), g, ways, trace, None);
      SameCache(c, d) && evs == fvs
  {
    hide SetStep, SameSet;
    InitialShaped(g, ways);
    if trace == [] {
      SameItself(Initial(g, ways));
    } else {
      var k := |trace| - 1;
      VerboseChangesNothing(g, ways, trace[..k], rango);
      var c := Run(Initial(g, ways), g, ways, trace[..k], rango).0;
      var d := Run(Initial(g, ways), g, ways, trace[..k], None).0;
      var i := g.SetOf(trace[k].dir);
      SameStep(c.sets[i], d.sets[i], g.TagOf(trace[k].dir), c.ciclos, trace[k].instr, Verbosity(rango, k),
        Verbosity(None, k));
    }
  }

  lemma SameItself(c: Cache)
    ensures SameCache(c, c)
  {
  }
}
