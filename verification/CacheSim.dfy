/** The simulator of alpha4.0.c in place: lines, sets, clock and metrics are overwritten access by access. */
module CacheSim {
  import opened Options
  import opened CacheModel
  import opened CacheAddress

  const ERROR := -1

  /** set_t */
  class CacheSet {
    const lineas: array<Linea>
    var ocupadas: nat

    ghost function State(): Conjunto
      reads this, lineas
    {
      Conjunto(lineas[..], ocupadas)
    }

    constructor (ways: nat)
      ensures State() == Conjunto(seq(ways, _ => VACIA), 0) && fresh(lineas)
    {
      lineas := new Linea[ways](_ => VACIA);
      ocupadas := 0;
      new;
      assert lineas[..] == seq(ways, _ => VACIA);
    }

    method LeerSet(tag: int) returns (pos: int)
      ensures pos == if Find(lineas[..], tag) < lineas.Length then Find(lineas[..], tag) else ERROR
    {
      var encontrado := false;
      var i := 0;
      while i < lineas.Length && !encontrado
        invariant 0 <= i <= lineas.Length
        invariant encontrado ==> i < lineas.Length && lineas[i].valido && lineas[i].tag == tag
        invariant forall j :: 0 <= j < i ==> !(lineas[j].valido && lineas[j].tag == tag)
        decreases lineas.Length - i, !encontrado
      {
        if lineas[i].valido && lineas[i].tag == tag {
          encontrado := true;
        } else {
          i := i + 1;
        }
      }
      FindIsFirst(lineas[..], tag, i);
      return if encontrado then i else ERROR;
    }

    method ActualizarCiclosLectura(tag: int, ciclos: nat)
      modifies lineas
      ensures var ls := old(lineas[..]); var i := FindTag(ls, tag);
        lineas[..] == if i < |ls| then ls[i := Touched(ls[i], ciclos, LECTURA)] else ls
    {
      var i := 0;
      var escribio := false;
      ghost var ls := lineas[..];
      while i < lineas.Length && !escribio
        invariant 0 <= i <= lineas.Length
        invariant forall j :: 0 <= j < i ==> ls[j].tag != tag
        invariant escribio ==>
          i < lineas.Length && ls[i].tag == tag && lineas[..] == ls[i := Touched(ls[i], ciclos, LECTURA)]
        invariant !escribio ==> lineas[..] == ls
        decreases lineas.Length - i, !escribio
      {
        if lineas[i].tag == tag {
          lineas[i] := lineas[i].(ciclo := ciclos + 1);
          lineas[i] := lineas[i].(valido := true);
          escribio := true;
        } else {
          i := i + 1;
        }
      }
      FindTagIsFirst(ls, tag, i);
    }

    method ActualizarCiclosEscritura(tag: int, ciclos: nat)
      modifies lineas
      ensures var ls := old(lineas[..]); var i := FindTag(ls, tag);
        lineas[..] == if i < |ls| then ls[i := Touched(ls[i], ciclos, 'W')] else ls
    {
      var i := 0;
      var escribio := false;
      ghost var ls := lineas[..];
      while i < lineas.Length && !escribio
        invariant 0 <= i <= lineas.Length
        invariant forall j :: 0 <= j < i ==> ls[j].tag != tag
        invariant escribio ==>
          i < lineas.Length && ls[i].tag == tag && lineas[..] == ls[i := Touched(ls[i], ciclos, 'W')]
        invariant !escribio ==> lineas[..] == ls
        decreases lineas.Length - i, !escribio
      {
        if lineas[i].tag == tag {
          lineas[i] := lineas[i].(ciclo := ciclos + 1);
          lineas[i] := lineas[i].(dirty := true);
          lineas[i] := lineas[i].(valido := true);
          escribio := true;
        } else {
          i := i + 1;
        }
      }
      FindTagIsFirst(ls, tag, i);
    }

    method LineaNoValida() returns (pos: Option<nat>)
      ensures pos == if FirstInvalid(lineas[..]) < lineas.Length then Some(FirstInvalid(lineas[..])) else None
    {
      var encontrado := false;
      var i := 0;
      while i < lineas.Length && !encontrado
        invariant 0 <= i <= lineas.Length
        invariant encontrado ==> i < lineas.Length && !lineas[i].valido
        invariant forall j :: 0 <= j < i ==> lineas[j].valido
        decreases lineas.Length - i, !encontrado
      {
        if !lineas[i].valido {
          encontrado := true;
        } else {
          i := i + 1;
        }
      }
      FirstInvalidIsFirst(lineas[..], i);
      return if encontrado then Some(i) else None;
    }

    method CargarLinea(pos: nat, tag: int, ciclos: nat, instr: char)
      requires pos < lineas.Length
      modifies lineas
      ensures lineas[..] == old(lineas[..])[pos := Loaded(old(lineas[pos]), tag, ciclos, instr)]
    {
      ghost var ls := lineas[..];
      lineas[pos] := lineas[pos].(valido := true);
      lineas[pos] := lineas[pos].(tag := tag);
      lineas[pos] := lineas[pos].(ciclo := ciclos + MISS_PENALTY + 1);
      if lineas[pos].dirty && instr != LECTURA {
        lineas[pos] := lineas[pos].(ciclo := lineas[pos].ciclo + MISS_PENALTY);
      } else if !lineas[pos].dirty && instr != LECTURA {
        lineas[pos] := lineas[pos].(dirty := true);
      } else {
        lineas[pos] := lineas[pos].(dirty := false);
      }
      assert lineas[..] == ls[pos := lineas[pos]];
    }

    method DesalojarLinea(ciclos: nat, tag: int, instr: char, verboso: Option<int>) returns (resultado: int)
      requires lineas.Length > 0 && FirstInvalid(lineas[..]) == lineas.Length
      modifies lineas
      ensures var (s, out) := MissSet(old(State()), tag, ciclos, instr, verboso);
        State() == s && resultado == out.Resultado()
    {
      ghost var ls := lineas[..];
      var posDesalojar := 0;
      var i := 1;
      while i < lineas.Length
        invariant 1 <= i <= lineas.Length
        invariant posDesalojar == Oldest(ls[..i])
      {
        assert ls[..i + 1][..i] == ls[..i];
        if lineas[posDesalojar].ciclo > lineas[i].ciclo {
          posDesalojar := i;
        }
        i := i + 1;
      }
      assert ls[..i] == ls;
      resultado := if lineas[posDesalojar].dirty then DESALOJO_DIRTY_BIT else DESALOJO_LIMPIO;
      if verboso.Some? {
        lineas[posDesalojar] := lineas[posDesalojar].(operacion := verboso.value);
      }
      CargarLinea(posDesalojar, tag, ciclos, instr);
    }
  }

  // the first index is the only one the loops can stop at
  lemma FindIsFirst(ls: seq<Linea>, tag: int, i: nat)
    requires i <= |ls| && (i < |ls| ==> ls[i].valido && ls[i].tag == tag)
    requires forall j :: 0 <= j < i ==> !(ls[j].valido && ls[j].tag == tag)
    ensures Find(ls, tag) == i
  {
    var k := Find(ls, tag);
  }

  lemma FindTagIsFirst(ls: seq<Linea>, tag: int, i: nat)
    requires i <= |ls| && (i < |ls| ==> ls[i].tag == tag) && forall j :: 0 <= j < i ==> ls[j].tag != tag
    ensures FindTag(ls, tag) == i
  {
    var k := FindTag(ls, tag);
  }

  lemma FirstInvalidIsFirst(ls: seq<Linea>, i: nat)
    requires i <= |ls| && (i < |ls| ==> !ls[i].valido) && forall j :: 0 <= j < i ==> ls[j].valido
    ensures FirstInvalid(ls) == i
  {
    var k := FirstInvalid(ls);
  }

  lemma MissMisses(s: Conjunto, tag: int, ciclos: nat, instr: char, verboso: Option<int>)
    requires s.lineas != []
    ensures !MissSet(s, tag, ciclos, instr, verboso).1.Hit?
  {
  }

  /** cache_t: `sets` is allocated once, the sets in it are updated in place. */
  class CacheMachine {
    const sets: seq<CacheSet>
    const cantidadSets: nat
    const tamanioBloque: nat
    ghost const g: Geometry
    ghost const ways: nat
    var ciclos: nat
    var metricas: Metricas

    ghost function Footprint(): set<object>
    {
      (set i | 0 <= i < |sets| :: sets[i] as object) + (set i | 0 <= i < |sets| :: sets[i].lineas as object)
    }

    ghost predicate Valid() {
      && ways > 0 && g.setBits + g.offBits <= 31
      && |sets| == cantidadSets == g.Sets() && tamanioBloque == g.Block()
      && (forall i :: 0 <= i < |sets| ==> sets[i].lineas.Length == ways)
      && (forall i, j :: 0 <= i < j < |sets| ==> sets[i] != sets[j] && sets[i].lineas != sets[j].lineas)
    }

    ghost function State(): Cache
      reads this, Footprint()
    {
      Cache(seq(|sets|, i requires 0 <= i < |sets| reads this, Footprint() => sets[i].State()), ciclos, metricas)
    }

    /** crear_cache */
    constructor (asociatividad: nat, numeroSets: nat, bloque: nat, ghost g: Geometry)
      requires g.setBits + g.offBits <= 31 && asociatividad > 0 && numeroSets == g.Sets() && bloque == g.Block()
      ensures Valid() && this.g == g && ways == asociatividad && State() == Initial(g, ways)
      ensures fresh(Footprint())
    {
      var nuevos: seq<CacheSet> := [];
      while |nuevos| < numeroSets
        invariant |nuevos| <= numeroSets
        invariant forall i :: 0 <= i < |nuevos| ==> fresh(nuevos[i]) && fresh(nuevos[i].lineas)
        invariant forall i :: 0 <= i < |nuevos| ==> nuevos[i].State() == Conjunto(seq(asociatividad, _ => VACIA), 0)
        invariant forall i, j :: 0 <= i < j < |nuevos| ==>
          nuevos[i] != nuevos[j] && nuevos[i].lineas != nuevos[j].lineas
      {
        var s := new CacheSet(asociatividad);
        nuevos := nuevos + [s];
      }
      sets := nuevos;
      cantidadSets, tamanioBloque := numeroSets, bloque;
      this.g, ways := g, asociatividad;
      ciclos, metricas := 0, SIN_ACCESOS;
      new;
      LinesLength();
      assert State().sets == Initial(g, ways).sets;
    }

    lemma LinesLength()
      requires forall i :: 0 <= i < |sets| ==> sets[i].State() == Conjunto(seq(ways, _ => VACIA), 0)
      ensures forall i :: 0 <= i < |sets| ==> sets[i].lineas.Length == ways
    {
      forall i | 0 <= i < |sets| ensures sets[i].lineas.Length == ways {
        assert |sets[i].State().lineas| == ways;
      }
    }

    lemma IsShaped()
      requires Valid()
      ensures Shaped(State(), g, ways)
    {
    }

    /** When one set is updated in place, the state differs in that set only. */
    twostate lemma OnlySet(i: nat)
      requires Valid() && i < |sets|
      requires forall j :: 0 <= j < |sets| && j != i ==> unchanged(sets[j]) && unchanged(sets[j].lineas)
      ensures State().sets == old(State().sets)[i := sets[i].State()]
    {
      forall j | 0 <= j < |sets| && j != i ensures sets[j].State() == old(sets[j].State()) {
        assert unchanged(sets[j]) && unchanged(sets[j].lineas);
      }
    }

    method LeerCache(dir: nat, verboso: Option<int>) returns (hit: bool)
      requires Valid() && dir < WORDS
      modifies Footprint()
      ensures ciclos == old(ciclos) && metricas == old(metricas)
      ensures var s := old(State().sets); var i, tag := g.SetOf(dir), g.TagOf(dir);
        && hit == (Find(s[i].lineas, tag) < |s[i].lineas|)
        && State().sets == if hit then s[i := HitSet(s[i], tag, ciclos, LECTURA, verboso)] else s
    {
      hide Find, FindTag, Touched;
      var i, tag := CalcularSetYTag(cantidadSets, tamanioBloque, dir, g);
      var s := sets[i];
      ghost var s0 := s.State();
      var pos := s.LeerSet(tag);
      if pos != ERROR {
        if verboso.Some? {
          s.lineas[pos] := s.lineas[pos].(operacion := verboso.value);
        }
        assert s.lineas[..] == s0.lineas[pos := Marked(s0.lineas[pos], verboso)];
        s.ActualizarCiclosLectura(tag, ciclos);
        assert s.State() == HitSet(s0, tag, ciclos, LECTURA, verboso);
      }
      OnlySet(i);
      hit := pos != ERROR;
    }

    method EscribirCache(dir: nat, instr: char, verboso: Option<int>) returns (hit: bool)
      requires Valid() && dir < WORDS && instr != LECTURA
      modifies Footprint()
      ensures ciclos == old(ciclos) && metricas == old(metricas)
      ensures var s := old(State().sets); var i, tag := g.SetOf(dir), g.TagOf(dir);
        && hit == (Find(s[i].lineas, tag) < |s[i].lineas|)
        && State().sets == if hit then s[i := HitSet(s[i], tag, ciclos, instr, verboso)] else s
    {
      hide Find, FindTag;
      var i, tag := CalcularSetYTag(cantidadSets, tamanioBloque, dir, g);
      var s := sets[i];
      ghost var s0 := s.State();
      var pos := s.LeerSet(tag);
      if pos != ERROR {
        if verboso.Some? {
          s.lineas[pos] := s.lineas[pos].(operacion := verboso.value);
        }
        assert s.lineas[..] == s0.lineas[pos := Marked(s0.lineas[pos], verboso)];
        s.ActualizarCiclosEscritura(tag, ciclos);
        assert s.State() == HitSet(s0, tag, ciclos, instr, verboso);
      }
      OnlySet(i);
      hit := pos != ERROR;
    }

    method CargarLineaMiss(dir: nat, instr: char, verboso: Option<int>) returns (resultado: int)
      requires Valid() && dir < WORDS
      modifies Footprint()
      ensures ciclos == old(ciclos) && metricas == old(metricas)
      ensures var s := old(State().sets); var i, tag := g.SetOf(dir), g.TagOf(dir);
        var (t, out) := MissSet(s[i], tag, ciclos, instr, verboso);
        State().sets == s[i := t] && resultado == out.Resultado()
    {
      hide FirstInvalid, Oldest, Loaded;
      var i, tag := CalcularSetYTag(cantidadSets, tamanioBloque, dir, g);
      var s := sets[i];
      ghost var s0 := s.State();
      var pos := s.LineaNoValida();
      if pos != None {
        if verboso.Some? {
          s.lineas[pos.value] := s.lineas[pos.value].(operacion := verboso.value);
        }
        assert s.lineas[..] == s0.lineas[pos.value := Marked(s0.lineas[pos.value], verboso)];
        s.CargarLinea(pos.value, tag, ciclos, instr);
        s.ocupadas := s.ocupadas + 1;
        resultado := DESALOJO_LIMPIO;
      } else {
        resultado := s.DesalojarLinea(ciclos, tag, instr, verboso);
      }
      assert s.State() == MissSet(s0, tag, ciclos, instr, verboso).0;
      OnlySet(i);
    }

    method ActualizarMetricas(instr: char, fueHit: bool, desalojo: int)
      modifies this`metricas
      ensures metricas == Actualizadas(old(metricas), instr, fueHit, desalojo, tamanioBloque)
    {
      if instr == LECTURA {
        metricas := metricas.(lecturas := metricas.lecturas + 1);
        if fueHit {
          metricas := metricas.(ciclosLecturas := metricas.ciclosLecturas + 1);
        } else {
          metricas := metricas.(missesRead := metricas.missesRead + 1);
          metricas := metricas.(ciclosLecturas := metricas.ciclosLecturas + MISS_PENALTY + 1);
          metricas := metricas.(bytesRead := metricas.bytesRead + tamanioBloque);
          if desalojo == DESALOJO_DIRTY_BIT {
            metricas := metricas.(dirtyReadMiss := metricas.dirtyReadMiss + 1);
            metricas := metricas.(ciclosLecturas := metricas.ciclosLecturas + MISS_PENALTY);
            metricas := metricas.(bytesWritten := metricas.bytesWritten + tamanioBloque);
          }
        }
      } else {
        metricas := metricas.(escrituras := metricas.escrituras + 1);
        if fueHit {
          metricas := metricas.(ciclosEscrituras := metricas.ciclosEscrituras + 1);
        } else {
          metricas := metricas.(bytesRead := metricas.bytesRead + tamanioBloque);
          metricas := metricas.(missesWrite := metricas.missesWrite + 1);
          metricas := metricas.(ciclosEscrituras := metricas.ciclosEscrituras + MISS_PENALTY + 1);
          if desalojo == DESALOJO_DIRTY_BIT {
            metricas := metricas.(dirtyWriteMiss := metricas.dirtyWriteMiss + 1);
            metricas := metricas.(ciclosEscrituras := metricas.ciclosEscrituras + MISS_PENALTY);
            metricas := metricas.(bytesWritten := metricas.bytesWritten + tamanioBloque);
          }
        }
      }
    }

    /** The body that both simulation loops repeat for each access of the trace. */
    method Acceder(a: Access, verboso: Option<int>)
      requires Valid() && a.dir < WORDS
      modifies this, Footprint()
      ensures Shaped(old(State()), g, ways) && State() == Step(old(State()), g, ways, a, verboso).0
    {
      hide HitSet, MissSet, Find, Actualizadas;
      IsShaped();
      ghost var (d, ev) := Step(State(), g, ways, a, verboso);
      MissMisses(State().sets[g.SetOf(a.dir)], g.TagOf(a.dir), ciclos, a.instr, verboso);
      var hit;
      var resultado;
      if a.instr == LECTURA {
        hit := LeerCache(a.dir, verboso);
      } else {
        hit := EscribirCache(a.dir, a.instr, verboso);
      }
      if hit {
        ciclos := ciclos + 1;
        resultado := 0;
      } else {
        resultado := CargarLineaMiss(a.dir, a.instr, verboso);
        ciclos := ciclos + MISS_PENALTY + 1;
        if resultado == DESALOJO_DIRTY_BIT {
          ciclos := ciclos + MISS_PENALTY;
        }
      }
      assert hit == ev.out.Hit? && resultado == ev.out.Resultado();
      assert ciclos == d.ciclos;
      assert State().sets == d.sets;
      ActualizarMetricas(a.instr, hit, resultado);
    }

    method SimularCacheSimple(trace: seq<Access>)
      requires Valid() && forall k :: 0 <= k < |trace| ==> trace[k].dir < WORDS
      modifies this, Footprint()
      ensures Shaped(old(State()), g, ways) && State() == Run(old(State()), g, ways, trace, None).0
    {
      ghost var c := State();
      IsShaped();
      for n := 0 to |trace|
        invariant State() == Run(c, g, ways, trace[..n], None).0
      {
        assert trace[..n + 1][..n] == trace[..n];
        Acceder(trace[n], None);
      }
      assert trace[..|trace|] == trace;
    }

    method SimularCacheModoVerboso(trace: seq<Access>, primera: int, ultima: int)
      requires Valid() && forall k :: 0 <= k < |trace| ==> trace[k].dir < WORDS
      modifies this, Footprint()
      ensures Shaped(old(State()), g, ways) && State() == Run(old(State()), g, ways, trace, Some((primera, ultima))).0
    {
      ghost var c := State();
      IsShaped();
      var operacionActual := 0;
      while operacionActual < |trace|
        invariant 0 <= operacionActual <= |trace|
        invariant State() == Run(c, g, ways, trace[..operacionActual], Some((primera, ultima))).0
      {
        ghost var n := operacionActual;
        assert trace[..n + 1][..n] == trace[..n];
        Acceder(trace[operacionActual], if primera <= operacionActual <= ultima then Some(operacionActual) else None);
        operacionActual := operacionActual + 1;
      }
      assert trace[..|trace|] == trace;
    }
  }
}
