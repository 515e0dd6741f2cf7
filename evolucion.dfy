/** The data of the line chart of `mostrar_evolucion_etiquetas` and
    `mostrar_evolucion_etiquetas2`: the years in increasing order, and for
    each tag asked for, one count per year. */
module Evolucion {
  import opened Seqs
  import opened Dicts
  import opened Ordenacion
  import opened Preguntas
  import opened Agrupacion

  /** `len([p for p in lista if p.etiqueta == etiqueta])` */
  function Frecuencia(lista: seq<Pregunta>, etiqueta: string): nat {
    |Filter(lista, HasKey(EtiquetaDe, etiqueta))|
  }

  /** `sorted(preguntas_por_anyo)` */
  function AnyosOrdenados(ps: seq<Pregunta>): seq<int> {
    SortAsc(PreguntasPorAnyo(ps).keys)
  }

  /** The chart's years are every year with questions, once each, in
      increasing order. */
  lemma AnyosOrdenadosCrecientes(ps: seq<Pregunta>)
    ensures forall i, j :: 0 <= i < j < |AnyosOrdenados(ps)| ==> AnyosOrdenados(ps)[i] < AnyosOrdenados(ps)[j]
    ensures forall a :: a in AnyosOrdenados(ps) <==> exists p :: p in ps && p.anyo == a
  {
    var g := PreguntasPorAnyo(ps);
    PreguntasPorAnyoGrupos(ps);
    SortAscStrict(g.keys);
    forall a
      ensures a in AnyosOrdenados(ps) <==> exists p :: p in ps && p.anyo == a
    {
      assert a in g.keys <==> a in g.entries;
    }
  }

  /** `[len([p for p in lista if p.etiqueta == etiqueta]) for _, lista in g.items()]` */
  function Serie(g: Dict<int, seq<Pregunta>>, etiqueta: string): seq<int>
    requires Valid(g)
  {
    seq(|g.keys|, j requires 0 <= j < |g.keys| => Frecuencia(g.entries[g.keys[j]], etiqueta))
  }

  /** The evolution of one tag as the two functions compute it. */
  function Evolucion(ps: seq<Pregunta>, etiqueta: string): seq<int> {
    Serie(PreguntasPorAnyo(ps), etiqueta)
  }

  /** The evolution has one count per year, in the key order of
      `preguntas_por_anyo`, which is the order in which the years first
      occur in `ps`, not the order of the chart's years; each count is the
      number of questions of that year with the tag. */
  lemma EvolucionCuenta(ps: seq<Pregunta>, etiqueta: string)
    ensures |Evolucion(ps, etiqueta)| == |Distinct(Anyos(ps))|
    ensures forall j :: 0 <= j < |Evolucion(ps, etiqueta)| ==>
              Evolucion(ps, etiqueta)[j] == |Filter(FiltrarPorAnyo(ps, Distinct(Anyos(ps))[j]), HasKey(EtiquetaDe, etiqueta))|
  {
    PreguntasPorAnyoGrupos(ps);
  }

  /** `evoluciones`: one evolution per tag asked for, in the order of the tags. */
  function Evoluciones(ps: seq<Pregunta>, etiquetas: seq<string>): seq<seq<int>> {
    seq(|etiquetas|, i requires 0 <= i < |etiquetas| => Evolucion(ps, etiquetas[i]))
  }

  /** One more tag adds its evolution at the end. */
  lemma EvolucionesPaso(ps: seq<Pregunta>, etiquetas: seq<string>, i: nat)
    requires i < |etiquetas|
    ensures Evoluciones(ps, etiquetas[..i + 1]) == Evoluciones(ps, etiquetas[..i]) + [Evolucion(ps, etiquetas[i])]
  {
    assert etiquetas[..i + 1] == etiquetas[..i] + [etiquetas[i]];
  }

  lemma EvolucionesTodas(ps: seq<Pregunta>, etiquetas: seq<string>)
    ensures Evoluciones(ps, etiquetas[..|etiquetas|]) == Evoluciones(ps, etiquetas)
  {
    assert etiquetas[..|etiquetas|] == etiquetas;
  }

  /** The inner loop of `mostrar_evolucion_etiquetas`: one count per item
      of `g`, appended in the order of the items. */
  method SerieBucle(g: Dict<int, seq<Pregunta>>, etiqueta: string) returns (evolucion: seq<int>)
    requires Valid(g)
    ensures evolucion == Serie(g, etiqueta)
  {
    evolucion := [];
    var items := Items(g);
    for j := 0 to |items|
      invariant evolucion == Serie(g, etiqueta)[..j]
    {
      var listaPreguntas := items[j].1;
      var frecuencia := |Filter(listaPreguntas, HasKey(EtiquetaDe, etiqueta))|;
      evolucion := evolucion + [frecuencia];
    }
  }

  /** `mostrar_evolucion_etiquetas`: the years and series handed to the
      chart, computed with two nested loops over the tags and over the items
      of `preguntas_por_anyo`. */
  method MostrarEvolucionEtiquetas(ps: seq<Pregunta>, etiquetas: seq<string>)
    returns (anyos: seq<int>, evoluciones: seq<seq<int>>)
    ensures anyos == AnyosOrdenados(ps)
    ensures evoluciones == Evoluciones(ps, etiquetas)
  {
    var preguntasPorAnyo := AgruparPreguntasPorAnyo(ps);
    anyos := SortAsc(preguntasPorAnyo.keys);
    evoluciones := [];
    for i := 0 to |etiquetas|
      invariant evoluciones == Evoluciones(ps, etiquetas[..i])
    {
      var evolucion := SerieBucle(preguntasPorAnyo, etiquetas[i]);
      EvolucionesPaso(ps, etiquetas, i);
      evoluciones := evoluciones + [evolucion];
    }
    EvolucionesTodas(ps, etiquetas);
  }

  /** `num_preguntas_por_anyo_y_etiqueta`: the same years, in the same
      order, each mapped to `contar_por_etiqueta` of its questions. */
  function ConteosPorAnyo(g: Dict<int, seq<Pregunta>>, etiquetas: seq<string>): (r: Dict<int, Dict<string, int>>)
    requires Valid(g)
    ensures Valid(r)
    ensures r.keys == g.keys
  {
    Dict(g.keys, map a | a in g.entries :: ContarPorEtiqueta(g.entries[a], etiquetas))
  }

  /** `[dicc.get(etiqueta, 0) for anyo, dicc in conteos.items()]` */
  function Lectura(conteos: Dict<int, Dict<string, int>>, etiqueta: string): seq<int>
    requires Valid(conteos)
  {
    seq(|conteos.keys|, j requires 0 <= j < |conteos.keys| => Get(conteos.entries[conteos.keys[j]], etiqueta, 0))
  }

  /** Reading a tag asked for from the counts of each year gives the same
      series as counting its questions year by year. */
  lemma LecturaEsSerie(g: Dict<int, seq<Pregunta>>, etiquetas: seq<string>, etiqueta: string)
    requires Valid(g) && etiqueta in etiquetas
    ensures Lectura(ConteosPorAnyo(g, etiquetas), etiqueta) == Serie(g, etiqueta)
  {
    var l, s := Lectura(ConteosPorAnyo(g, etiquetas), etiqueta), Serie(g, etiqueta);
    forall j | 0 <= j < |s|
      ensures l[j] == s[j]
    {
      var lista := g.entries[g.keys[j]];
      ContarPorEtiquetaCuenta(lista, etiquetas);
      FrecuenciaEtiquetasCuenta(lista);
    }
  }

  /** `mostrar_evolucion_etiquetas2`: the counts of each year are taken
      once with `contar_por_etiqueta`, then read tag by tag; the chart gets
      the same data as from `mostrar_evolucion_etiquetas`. */
  method MostrarEvolucionEtiquetas2(ps: seq<Pregunta>, etiquetas: seq<string>)
    returns (anyos: seq<int>, evoluciones: seq<seq<int>>)
    ensures anyos == AnyosOrdenados(ps)
    ensures evoluciones == Evoluciones(ps, etiquetas)
  {
    var preguntasPorAnyo := AgruparPreguntasPorAnyo(ps);
    anyos := SortAsc(preguntasPorAnyo.keys);
    var conteos := ConteosPorAnyo(preguntasPorAnyo, etiquetas);
    evoluciones := [];
    for i := 0 to |etiquetas|
      invariant evoluciones == Evoluciones(ps, etiquetas[..i])
    {
      var evolucion := Lectura(conteos, etiquetas[i]);
      LecturaEsSerie(preguntasPorAnyo, etiquetas, etiquetas[i]);
      EvolucionesPaso(ps, etiquetas, i);
      evoluciones := evoluciones + [evolucion];
    }
    EvolucionesTodas(ps, etiquetas);
  }

  /** The series aligned with the sorted years, as the chart's x-axis
      labels them: `[len([p for p in preguntas_por_anyo[a] if p.etiqueta == etiqueta]) for a in anyos]`. */
  function EvolucionAlineada(ps: seq<Pregunta>, etiqueta: string): seq<int> {
    var g, anyos := PreguntasPorAnyo(ps), AnyosOrdenados(ps);
    seq(|anyos|, j requires 0 <= j < |anyos| => Frecuencia(Get(g, anyos[j], []), etiqueta))
  }

  /** The aligned series has one count per year of the chart, and each
      count is the number of questions of that year with the tag. */
  lemma EvolucionAlineadaCuenta(ps: seq<Pregunta>, etiqueta: string)
    ensures |EvolucionAlineada(ps, etiqueta)| == |AnyosOrdenados(ps)|
    ensures forall j :: 0 <= j < |EvolucionAlineada(ps, etiqueta)| ==>
              EvolucionAlineada(ps, etiqueta)[j] ==
              |Filter(FiltrarPorAnyo(ps, AnyosOrdenados(ps)[j]), HasKey(EtiquetaDe, etiqueta))|
  {
    PreguntasPorAnyoGrupos(ps);
  }

  /** The years first occur in increasing order when the questions come
      sorted by year. */
  lemma {:induction false} DistinctAscending(s: seq<int>)
    requires Ascending(s)
    ensures Ascending(Distinct(s))
  {
    if s != [] {
      var s', x := s[..|s| - 1], s[|s| - 1];
      assert s == s' + [x];
      DistinctAscending(s');
      var d := Distinct(s');
      if x !in s' {
        forall i, j | 0 <= i < j < |d + [x]|
          ensures (d + [x])[i] <= (d + [x])[j]
        {
          if j == |d| {
            assert d[i] in d;
            var k :| 0 <= k < |s'| && s'[k] == d[i];
            assert s[k] <= s[|s'|];
          }
        }
      }
    }
  }

  /** When the questions come sorted by year, the series as written is
      aligned with the sorted years. */
  lemma EvolucionOrdenada(ps: seq<Pregunta>, etiqueta: string)
    requires Ascending(Anyos(ps))
    ensures Evolucion(ps, etiqueta) == EvolucionAlineada(ps, etiqueta)
  {
    PreguntasPorAnyoGrupos(ps);
    DistinctAscending(Anyos(ps));
    SortAscOfAscending(Distinct(Anyos(ps)));
  }

  /** Three questions with the same tag, one from 2009 followed by two
      from 2008. */
  const EJEMPLO: seq<Pregunta> :=
    [Pregunta(1, "a", 2009, "python"), Pregunta(1, "b", 2008, "python"), Pregunta(1, "c", 2008, "python")]

  lemma EjemploGrupos()
    ensures PreguntasPorAnyo(EJEMPLO).keys == [2009, 2008]
    ensures Get(PreguntasPorAnyo(EJEMPLO), 2009, []) == [EJEMPLO[0]]
    ensures Get(PreguntasPorAnyo(EJEMPLO), 2008, []) == [EJEMPLO[1], EJEMPLO[2]]
  {
    var ps := EJEMPLO;
    assert ps == [ps[0]] + [ps[1]] + [ps[2]];
    GroupBySnoc([], ps[0], AnyoDe);
    GroupBySnoc([ps[0]], ps[1], AnyoDe);
    GroupBySnoc([ps[0], ps[1]], ps[2], AnyoDe);
  }

  /** Sorting two values given in decreasing order swaps them. */
  lemma SortAscPar(a: int, b: int)
    requires b < a
    ensures SortAsc([a, b]) == [b, a]
  {
    assert [a, b][..1] == [a];
    assert [a][..0] == [];
    assert SortAsc([a]) == [a];
    assert InsertAsc([a], b) == InsertAsc([], b) + [a];
  }

  lemma EjemploOrden()
    ensures AnyosOrdenados(EJEMPLO) == [2008, 2009]
  {
    EjemploGrupos();
    SortAscPar(2009, 2008);
  }

  lemma EjemploFrecuencias()
    ensures Frecuencia([EJEMPLO[0]], "python") == 1
    ensures Frecuencia([EJEMPLO[1], EJEMPLO[2]], "python") == 2
  {
    var python := HasKey(EtiquetaDe, "python");
    assert Filter([EJEMPLO[0]], python) == [EJEMPLO[0]];
    assert Filter([EJEMPLO[2]], python) == [EJEMPLO[2]];
    assert [EJEMPLO[1], EJEMPLO[2]][1..] == [EJEMPLO[2]];
  }

  /** On the example, the x-axis reads 2008, 2009, but the series as
      written plots 1 question at 2008 and 2 at 2009, the reverse of the
      data, which the aligned series gives. */
  lemma EvolucionDesalineada()
    ensures AnyosOrdenados(EJEMPLO) == [2008, 2009]
    ensures Evolucion(EJEMPLO, "python") == [1, 2]
    ensures EvolucionAlineada(EJEMPLO, "python") == [2, 1]
  {
    EjemploGrupos();
    EjemploOrden();
    EjemploFrecuencias();
  }
}
