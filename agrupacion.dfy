/** The dicts built by walking a list of questions: the questions of each
    year, and, restricted to a list of tags, the number of questions and
    the questions of each tag. */
module Agrupacion {
  import opened Seqs
  import opened Dicts
  import opened Preguntas

  /** `[p.anyo for p in ps]` */
  function Anyos(ps: seq<Pregunta>): seq<int> {
    MapSeq(ps, AnyoDe)
  }

  /** The dict `agrupar_preguntas_por_anyo` returns. */
  function PreguntasPorAnyo(ps: seq<Pregunta>): (g: Dict<int, seq<Pregunta>>)
    ensures Valid(g)
  {
    GroupBy(ps, AnyoDe)
  }

  /** `agrupar_preguntas_por_anyo`: `setdefault` creates the empty list of
      a year not seen yet, and the question is appended to its year's list. */
  method AgruparPreguntasPorAnyo(ps: seq<Pregunta>) returns (preguntasPorAnyo: Dict<int, seq<Pregunta>>)
    ensures preguntasPorAnyo == PreguntasPorAnyo(ps)
  {
    preguntasPorAnyo := Empty();
    for i := 0 to |ps|
      invariant preguntasPorAnyo == GroupBy(ps[..i], AnyoDe)
    {
      var p := ps[i];
      if p.anyo !in preguntasPorAnyo.entries {
        preguntasPorAnyo := Put(preguntasPorAnyo, p.anyo, []);
      }
      preguntasPorAnyo := Put(preguntasPorAnyo, p.anyo, preguntasPorAnyo.entries[p.anyo] + [p]);
      assert ps[..i + 1] == ps[..i] + [p];
      GroupBySnoc(ps[..i], p, AnyoDe);
    }
    assert ps[..|ps|] == ps;
  }

  /** The years are those of the questions, in the order they first occur;
      the list of a year is `filtrar_por_anyo` for that year, and an absent
      year stands for no questions; the lists hold every question once. */
  lemma PreguntasPorAnyoGrupos(ps: seq<Pregunta>)
    ensures PreguntasPorAnyo(ps).keys == Distinct(Anyos(ps))
    ensures forall a :: a in PreguntasPorAnyo(ps).entries <==> exists p :: p in ps && p.anyo == a
    ensures forall a :: Get(PreguntasPorAnyo(ps), a, []) == FiltrarPorAnyo(ps, a)
    ensures Total(Items(Sizes(PreguntasPorAnyo(ps)))) == |ps|
  {
    GroupByGroups(ps, AnyoDe);
    GroupByTotal(ps, AnyoDe);
    forall a
      ensures a in PreguntasPorAnyo(ps).entries <==> exists p :: p in ps && p.anyo == a
    {
      MapSeqIn(ps, AnyoDe, a);
    }
  }

  /** `lambda p: p.etiqueta in etiquetas` */
  function EtiquetaEn(etiquetas: seq<string>): (f: Pregunta -> bool)
    ensures forall p :: f(p) <==> p.etiqueta in etiquetas
  {
    (p: Pregunta) => p.etiqueta in etiquetas
  }

  /** `contar_por_etiqueta`: `Counter(p.etiqueta for p in ps if p.etiqueta in etiquetas)`. */
  function ContarPorEtiqueta(ps: seq<Pregunta>, etiquetas: seq<string>): (r: Dict<string, int>)
    ensures Valid(r)
  {
    Counter(Etiquetas(Filter(ps, EtiquetaEn(etiquetas))))
  }

  /** Only the tags asked for that some question has are counted. */
  lemma ContarPorEtiquetaClaves(ps: seq<Pregunta>, etiquetas: seq<string>)
    ensures forall e :: e in ContarPorEtiqueta(ps, etiquetas).entries <==> e in etiquetas && e in ObtenerEtiquetas(ps)
  {
    var f := Filter(ps, EtiquetaEn(etiquetas));
    CounterCounts(Etiquetas(f));
    forall e
      ensures e in ContarPorEtiqueta(ps, etiquetas).entries <==> e in etiquetas && e in ObtenerEtiquetas(ps)
    {
      MapSeqIn(f, EtiquetaDe, e);
      if e in etiquetas && e in ObtenerEtiquetas(ps) {
        var i :| 0 <= i < |ps| && ps[i].etiqueta == e;
        FilterKeeps(ps, EtiquetaEn(etiquetas), i);
      }
    }
  }

  /** A tag asked for is counted as often as `frecuencia_etiquetas` counts
      it; any other tag counts zero. */
  lemma ContarPorEtiquetaCuenta(ps: seq<Pregunta>, etiquetas: seq<string>)
    ensures forall e :: Get(ContarPorEtiqueta(ps, etiquetas), e, 0) ==
              if e in etiquetas then Get(FrecuenciaEtiquetas(ps), e, 0) else 0
  {
    var f := Filter(ps, EtiquetaEn(etiquetas));
    CounterCounts(Etiquetas(f));
    FrecuenciaEtiquetasCuenta(ps);
    forall e
      ensures Get(ContarPorEtiqueta(ps, etiquetas), e, 0) ==
              if e in etiquetas then Get(FrecuenciaEtiquetas(ps), e, 0) else 0
    {
      FilterHasKeyCount(f, EtiquetaDe, e);
      if e in etiquetas {
        FilterFilter(ps, EtiquetaEn(etiquetas), HasKey(EtiquetaDe, e), HasKey(EtiquetaDe, e));
      } else {
        MapSeqIn(f, EtiquetaDe, e);
      }
    }
  }

  /** The counts add up to the number of questions with a tag asked for. */
  lemma ContarPorEtiquetaTotal(ps: seq<Pregunta>, etiquetas: seq<string>)
    ensures Total(Items(ContarPorEtiqueta(ps, etiquetas))) == |Filter(ps, EtiquetaEn(etiquetas))|
  {
    CounterTotal(Etiquetas(Filter(ps, EtiquetaEn(etiquetas))));
  }

  /** One more question increments the count of its tag when that tag is
      asked for, and changes nothing otherwise. */
  lemma ContarPorEtiquetaSnoc(ps: seq<Pregunta>, p: Pregunta, etiquetas: seq<string>)
    ensures ContarPorEtiqueta(ps + [p], etiquetas) ==
            if p.etiqueta in etiquetas then Increment(ContarPorEtiqueta(ps, etiquetas), p.etiqueta)
            else ContarPorEtiqueta(ps, etiquetas)
  {
    var f := Filter(ps, EtiquetaEn(etiquetas));
    FilterSnoc(ps, p, EtiquetaEn(etiquetas));
    if p.etiqueta in etiquetas {
      MapSeqConcat(f, [p], EtiquetaDe);
      assert MapSeq([p], EtiquetaDe) == [p.etiqueta];
      CounterSnoc(Etiquetas(f), p.etiqueta);
    } else {
      assert f + [] == f;
    }
  }

  /** Counting up to position `i + 1` counts one more question than up to
      `i` when its tag is asked for. */
  lemma ContarPorEtiquetaPrefijo(ps: seq<Pregunta>, i: nat, etiquetas: seq<string>)
    requires i < |ps|
    ensures ContarPorEtiqueta(ps[..i + 1], etiquetas) ==
            if ps[i].etiqueta in etiquetas then Increment(ContarPorEtiqueta(ps[..i], etiquetas), ps[i].etiqueta)
            else ContarPorEtiqueta(ps[..i], etiquetas)
  {
    assert ps[..i + 1] == ps[..i] + [ps[i]];
    ContarPorEtiquetaSnoc(ps[..i], ps[i], etiquetas);
  }

  /** The step of the counting loop at position `i`: whichever branch it
      takes, the dict then counts the questions up to `i + 1`. */
  lemma ContarPorEtiquetaPaso(ps: seq<Pregunta>, i: nat, etiquetas: seq<string>, antes: Dict<string, int>, despues: Dict<string, int>)
    requires i < |ps| && antes == ContarPorEtiqueta(ps[..i], etiquetas)
    requires var k := ps[i].etiqueta;
      despues == if k !in etiquetas then antes
                 else if k in antes.entries then Put(antes, k, antes.entries[k] + 1)
                 else Put(antes, k, 1)
    ensures despues == ContarPorEtiqueta(ps[..i + 1], etiquetas)
  {
    ContarPorEtiquetaPrefijo(ps, i, etiquetas);
    IncrementCases(antes, ps[i].etiqueta, ps[i].etiqueta in etiquetas, despues);
  }

  /** `contar_por_etiqueta2`: the explicit counting loop over the questions
      with a tag asked for builds the same dict, keys in the same order, as
      `Counter`. */
  method ContarPorEtiqueta2(ps: seq<Pregunta>, etiquetas: seq<string>) returns (res: Dict<string, int>)
    ensures res == ContarPorEtiqueta(ps, etiquetas)
  {
    res := Empty();
    for i := 0 to |ps|
      invariant res == ContarPorEtiqueta(ps[..i], etiquetas)
    {
      ghost var antes := res;
      var p := ps[i];
      if p.etiqueta in etiquetas {
        if p.etiqueta in res.entries {
          res := Put(res, p.etiqueta, res.entries[p.etiqueta] + 1);
        } else {
          res := Put(res, p.etiqueta, 1);
        }
      }
      ContarPorEtiquetaPaso(ps, i, etiquetas, antes, res);
    }
    assert ps[..|ps|] == ps;
  }

  /** The dict `agrupar_por_etiqueta` returns. */
  function GruposPorEtiqueta(ps: seq<Pregunta>, etiquetas: seq<string>): (g: Dict<string, seq<Pregunta>>)
    ensures Valid(g)
  {
    GroupBy(Filter(ps, EtiquetaEn(etiquetas)), EtiquetaDe)
  }

  /** One more question is appended to the list of its tag when that tag
      is asked for, and changes nothing otherwise. */
  lemma GruposPorEtiquetaSnoc(ps: seq<Pregunta>, p: Pregunta, etiquetas: seq<string>)
    ensures GruposPorEtiqueta(ps + [p], etiquetas) ==
            if p.etiqueta in etiquetas
            then Put(GruposPorEtiqueta(ps, etiquetas), p.etiqueta, Get(GruposPorEtiqueta(ps, etiquetas), p.etiqueta, []) + [p])
            else GruposPorEtiqueta(ps, etiquetas)
  {
    var f := Filter(ps, EtiquetaEn(etiquetas));
    FilterSnoc(ps, p, EtiquetaEn(etiquetas));
    if p.etiqueta in etiquetas {
      GroupBySnoc(f, p, EtiquetaDe);
    } else {
      assert f + [] == f;
    }
  }

  /** The step of the grouping loop, at position `i`. */
  lemma GruposPorEtiquetaPaso(ps: seq<Pregunta>, i: nat, etiquetas: seq<string>)
    requires i < |ps|
    ensures GruposPorEtiqueta(ps[..i + 1], etiquetas) ==
            if ps[i].etiqueta in etiquetas
            then Put(GruposPorEtiqueta(ps[..i], etiquetas), ps[i].etiqueta,
                     Get(GruposPorEtiqueta(ps[..i], etiquetas), ps[i].etiqueta, []) + [ps[i]])
            else GruposPorEtiqueta(ps[..i], etiquetas)
  {
    assert ps[..i + 1] == ps[..i] + [ps[i]];
    GruposPorEtiquetaSnoc(ps[..i], ps[i], etiquetas);
  }

  /** `agrupar_por_etiqueta`: each question with a tag asked for is
      appended to the list of its tag, which is created when the tag is new. */
  method AgruparPorEtiqueta(ps: seq<Pregunta>, etiquetas: seq<string>) returns (res: Dict<string, seq<Pregunta>>)
    ensures res == GruposPorEtiqueta(ps, etiquetas)
  {
    res := Empty();
    for i := 0 to |ps|
      invariant res == GruposPorEtiqueta(ps[..i], etiquetas)
    {
      GruposPorEtiquetaPaso(ps, i, etiquetas);
      var p := ps[i];
      if p.etiqueta in etiquetas {
        ghost var antes := res;
        if p.etiqueta in res.entries {
          res := Put(res, p.etiqueta, res.entries[p.etiqueta] + [p]);
        } else {
          assert [p] == [] + [p];
          res := Put(res, p.etiqueta, [p]);
        }
        assert res == Put(antes, p.etiqueta, Get(antes, p.etiqueta, []) + [p]);
      }
    }
    assert ps[..|ps|] == ps;
  }

  /** Only the tags asked for have a list, and the list of such a tag holds
      its questions in input order. */
  lemma GruposPorEtiquetaGrupos(ps: seq<Pregunta>, etiquetas: seq<string>)
    ensures forall e :: e in GruposPorEtiqueta(ps, etiquetas).entries ==> e in etiquetas
    ensures forall e :: e in etiquetas ==> Get(GruposPorEtiqueta(ps, etiquetas), e, []) == Filter(ps, HasKey(EtiquetaDe, e))
  {
    var f := Filter(ps, EtiquetaEn(etiquetas));
    GroupByGroups(f, EtiquetaDe);
    forall e | e in GruposPorEtiqueta(ps, etiquetas).entries
      ensures e in etiquetas
    {
      MapSeqIn(f, EtiquetaDe, e);
    }
    forall e | e in etiquetas
      ensures Get(GruposPorEtiqueta(ps, etiquetas), e, []) == Filter(ps, HasKey(EtiquetaDe, e))
    {
      FilterFilter(ps, EtiquetaEn(etiquetas), HasKey(EtiquetaDe, e), HasKey(EtiquetaDe, e));
    }
  }

  /** The two reports on a list of tags agree: the length of each tag's
      list is that tag's count. */
  lemma GruposYCuentas(ps: seq<Pregunta>, etiquetas: seq<string>)
    ensures Sizes(GruposPorEtiqueta(ps, etiquetas)) == ContarPorEtiqueta(ps, etiquetas)
  {
    GroupBySizes(Filter(ps, EtiquetaEn(etiquetas)), EtiquetaDe);
  }
}
