/** The cache simulator of alpha4.0.c as a function of its state.
    A set holds its lines in index order; a line is the linea_t struct. */
module CacheModel {
  import opened Options

  const LECTURA := 'R'
  const MISS_PENALTY := 100
  const DESALOJO_LIMPIO := 1
  const DESALOJO_DIRTY_BIT := 2

  datatype Linea = Linea(tag: int, dirty: bool, valido: bool, ciclo: nat, operacion: int)
  datatype Conjunto = Conjunto(lineas: seq<Linea>, ocupadas: nat)

  /** What one access did: a hit, a load into an invalid line, or a load in place of another tag. */
  datatype Outcome = Hit(wasDirty: bool) | Fill | Evict(tag: int, dirty: bool) {
    function Resultado(): int {
      match this case Hit(_) => 0 case Fill => DESALOJO_LIMPIO
      case Evict(_, d) => if d then DESALOJO_DIRTY_BIT else DESALOJO_LIMPIO
    }
    function Cost(): nat {
      if Hit? then 1 else if Evict? && dirty then 2 * MISS_PENALTY + 1 else MISS_PENALTY + 1
    }
  }

  // ----- the scans over the lines of a set -----

  /** leer_set: the first valid line with the tag; `|ls|` when there is none. */
  function Find(ls: seq<Linea>, tag: int): (i: nat)
    ensures i <= |ls|
    ensures i < |ls| ==> ls[i].valido && ls[i].tag == tag
    ensures forall j :: 0 <= j < i ==> !(ls[j].valido && ls[j].tag == tag)
  {
    if ls == [] then 0 else if ls[0].valido && ls[0].tag == tag then 0
    else
      var r := Find(ls[1..], tag);
      assert forall j :: 0 < j < r + 1 ==> ls[j] == ls[1..][j - 1];
      1 + r
  }

  /** The first line with the tag, valid or not, as the two update routines look for it. */
  function FindTag(ls: seq<Linea>, tag: int): (i: nat)
    ensures i <= |ls|
    ensures i < |ls| ==> ls[i].tag == tag
    ensures forall j :: 0 <= j < i ==> ls[j].tag != tag
  {
    if ls == [] then 0 else if ls[0].tag == tag then 0
    else
      var r := FindTag(ls[1..], tag);
      assert forall j :: 0 < j < r + 1 ==> ls[j] == ls[1..][j - 1];
      1 + r
  }

  /** linea_no_valida */
  function FirstInvalid(ls: seq<Linea>): (i: nat)
    ensures i <= |ls|
    ensures i < |ls| ==> !ls[i].valido
    ensures forall j :: 0 <= j < i ==> ls[j].valido
  {
    if ls == [] then 0 else if !ls[0].valido then 0
    else
      var r := FirstInvalid(ls[1..]);
      assert forall j :: 0 < j < r + 1 ==> ls[j] == ls[1..][j - 1];
      1 + r
  }

  /** The lowest index of a line with the smallest stamp. */
  function Oldest(ls: seq<Linea>): (i: nat)
    requires ls != []
    ensures i < |ls|
    ensures forall j :: 0 <= j < |ls| ==> ls[i].ciclo <= ls[j].ciclo
    ensures forall j :: 0 <= j < i ==> ls[i].ciclo < ls[j].ciclo
  {
    if |ls| == 1 then 0
    else
      var r := Oldest(ls[..|ls| - 1]);
      if ls[r].ciclo > ls[|ls| - 1].ciclo then |ls| - 1 else r
  }

  // ----- one access to a set -----

  function Marked(l: Linea, verboso: Option<int>): Linea {
    if verboso.Some? then l.(operacion := verboso.value) else l
  }

  /** cargar_linea */
  function Loaded(l: Linea, tag: int, ciclos: nat, instr: char): Linea {
    var m := l.(valido := true, tag := tag, ciclo := ciclos + MISS_PENALTY + 1);
    if l.dirty && instr != LECTURA then m.(ciclo := ciclos + 2 * MISS_PENALTY + 1)
    else if !l.dirty && instr != LECTURA then m.(dirty := true)
    else m.(dirty := false)
  }

  /** The line that matches on a hit, after both routines that touch it. */
  function Touched(l: Linea, ciclos: nat, instr: char): Linea {
    var m := l.(ciclo := ciclos + 1, valido := true);
    if instr == LECTURA then m else m.(dirty := true)
  }

  function HitSet(s: Conjunto, tag: int, ciclos: nat, instr: char, verboso: Option<int>): Conjunto
    requires Find(s.lineas, tag) < |s.lineas|
  {
    var ls := s.lineas[Find(s.lineas, tag) := Marked(s.lineas[Find(s.lineas, tag)], verboso)];
    var i := FindTag(ls, tag);
    if i < |ls| then s.(lineas := ls[i := Touched(ls[i], ciclos, instr)]) else s.(lineas := ls)
  }

  function MissSet(s: Conjunto, tag: int, ciclos: nat, instr: char, verboso: Option<int>): (Conjunto, Outcome)
    requires s.lineas != []
  {
    var i := FirstInvalid(s.lineas);
    if i < |s.lineas| then
      (Conjunto(s.lineas[i := Loaded(Marked(s.lineas[i], verboso), tag, ciclos, instr)], s.ocupadas + 1), Fill)
    else
      var v := Oldest(s.lineas);
      (s.(lineas := s.lineas[v := Loaded(Marked(s.lineas[v], verboso), tag, ciclos, instr)]),
       Evict(s.lineas[v].tag, s.lineas[v].dirty))
  }

  function SetStep(s: Conjunto, tag: int, ciclos: nat, instr: char, verboso: Option<int>): (Conjunto, Outcome)
    requires s.lineas != []
  {
    var i := Find(s.lineas, tag);
    if i < |s.lineas| then (HitSet(s, tag, ciclos, instr, verboso), Hit(s.lineas[i].dirty))
    else MissSet(s, tag, ciclos, instr, verboso)
  }

  // ----- the metrics -----

  datatype Metricas = Metricas(
    lecturas: nat, escrituras: nat, missesRead: nat, missesWrite: nat, dirtyReadMiss: nat, dirtyWriteMiss: nat,
    bytesRead: nat, bytesWritten: nat, ciclosLecturas: nat, ciclosEscrituras: nat)

  const SIN_ACCESOS := Metricas(0, 0, 0, 0, 0, 0, 0, 0, 0, 0)

  /** actualizar_metricas */
  function Actualizadas(m: Metricas, instr: char, hit: bool, desalojo: int, bloque: nat): Metricas {
    var dirty := desalojo == DESALOJO_DIRTY_BIT;
    if instr == LECTURA then
      var n := m.(lecturas := m.lecturas + 1);
      if hit then n.(ciclosLecturas := n.ciclosLecturas + 1)
      else
        var p := n.(missesRead := n.missesRead + 1, ciclosLecturas := n.ciclosLecturas + MISS_PENALTY + 1,
          bytesRead := n.bytesRead + bloque);
        if dirty then p.(dirtyReadMiss := p.dirtyReadMiss + 1, ciclosLecturas := p.ciclosLecturas + MISS_PENALTY,
                         bytesWritten := p.bytesWritten + bloque)
        else p
    else
      var n := m.(escrituras := m.escrituras + 1);
      if hit then n.(ciclosEscrituras := n.ciclosEscrituras + 1)
      else
        var p := n.(missesWrite := n.missesWrite + 1, ciclosEscrituras := n.ciclosEscrituras + MISS_PENALTY + 1,
          bytesRead := n.bytesRead + bloque);
        if dirty then p.(dirtyWriteMiss := p.dirtyWriteMiss + 1, ciclosEscrituras := p.ciclosEscrituras + MISS_PENALTY,
                         bytesWritten := p.bytesWritten + bloque)
        else p
  }

  // ----- the whole cache over a trace -----

  function Pow2(n: nat): (p: nat)
    ensures p > 0
  {
    if n == 0 then 1 else 2 * Pow2(n - 1)
  }

  /** 2^setBits sets of blocks of 2^offBits bytes. */
  datatype Geometry = Geometry(setBits: nat, offBits: nat) {
    function Sets(): (n: nat) ensures n > 0 { Pow2(setBits) }
    function Block(): (n: nat) ensures n > 0 { Pow2(offBits) }
    function SetOf(dir: nat): (i: nat)
      ensures i < Sets()
    {
      dir / Block() % Sets()
    }
    function TagOf(dir: nat): int { AsInt32(dir / Block() / Sets()) }
  }

  function AsInt32(v: int): int { if v < 0x8000_0000 then v else v - 0x1_0000_0000 }

  datatype Access = Access(instr: char, dir: nat)

  datatype Cache = Cache(sets: seq<Conjunto>, ciclos: nat, metricas: Metricas)

  ghost predicate Shaped(c: Cache, g: Geometry, ways: nat) {
    ways > 0 && |c.sets| == g.Sets() && forall i :: 0 <= i < |c.sets| ==> |c.sets[i].lineas| == ways
  }

  const VACIA := Linea(0, false, false, 0, 0)

  function Initial(g: Geometry, ways: nat): Cache {
    Cache(seq(g.Sets(), _ => Conjunto(seq(ways, _ => VACIA), 0)), 0, SIN_ACCESOS)
  }

  /** The accessed set, its tag, whether it was a write, and what happened. */
  datatype Event = Event(set_: nat, tag: int, write: bool, out: Outcome)

  function Step(c: Cache, g: Geometry, ways: nat, a: Access, verboso: Option<int>): (Cache, Event)
    requires Shaped(c, g, ways)
  {
    var i, tag := g.SetOf(a.dir), g.TagOf(a.dir);
    var (s, out) := SetStep(c.sets[i], tag, c.ciclos, a.instr, verboso);
    (Cache(c.sets[i := s], c.ciclos + out.Cost(), Actualizadas(c.metricas, a.instr, out.Hit?, out.Resultado(),
      g.Block())),
     Event(i, tag, a.instr != LECTURA, out))
  }

  lemma StepShaped(c: Cache, g: Geometry, ways: nat, a: Access, verboso: Option<int>)
    requires Shaped(c, g, ways)
    ensures Shaped(Step(c, g, ways, a, verboso).0, g, ways)
  {
  }

  /** The access number at which verbose output is on; None outside the range and in simple mode. */
  function Verbosity(rango: Option<(int, int)>, n: nat): Option<int> {
    if rango.Some? && rango.value.0 <= n <= rango.value.1 then Some(n) else None
  }

  /** The state and the events after a whole trace from `c`. */
  function Run(c: Cache, g: Geometry, ways: nat, trace: seq<Access>,
      rango: Option<(int, int)>): (r: (Cache, seq<Event>))
    requires Shaped(c, g, ways)
    ensures Shaped(r.0, g, ways) && |r.1| == |trace|
  {
    if trace == [] then (c, [])
    else
      var k := |trace| - 1;
      var (d, evs) := Run(c, g, ways, trace[..k], rango);
      var (e, ev) := Step(d, g, ways, trace[k], Verbosity(rango, k));
      StepShaped(d, g, ways, trace[k], Verbosity(rango, k));
      (e, evs + [ev])
  }

  lemma InitialShaped(g: Geometry, ways: nat)
    requires ways > 0
    ensures Shaped(Initial(g, ways), g, ways)
  {
  }
}
