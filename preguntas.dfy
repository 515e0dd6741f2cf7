/** The question records and the reports computed directly from a list of
    them: the questions of one year, the set of tags, the best-rated
    questions, the tag frequencies and the series of the tag pie chart. */
module Preguntas {
  import opened Seqs
  import opened Dicts
  import opened Ordenacion

  /** `Pregunta(puntuacion, titulo, anyo, etiqueta)`, one line of the input file. */
  datatype Pregunta = Pregunta(puntuacion: int, titulo: string, anyo: int, etiqueta: string)

  /** `lambda p: p.anyo` */
  function AnyoDe(p: Pregunta): int { p.anyo }

  /** `lambda p: p.etiqueta` */
  function EtiquetaDe(p: Pregunta): string { p.etiqueta }

  /** `[p.etiqueta for p in ps]` */
  function Etiquetas(ps: seq<Pregunta>): seq<string> {
    MapSeq(ps, EtiquetaDe)
  }

  lemma EtiquetasSnoc(ps: seq<Pregunta>, i: nat)
    requires i < |ps|
    ensures Etiquetas(ps[..i + 1]) == Etiquetas(ps[..i]) + [ps[i].etiqueta]
  {
    assert ps[..i + 1] == ps[..i] + [ps[i]];
    MapSeqConcat(ps[..i], [ps[i]], EtiquetaDe);
    assert MapSeq([ps[i]], EtiquetaDe) == [ps[i].etiqueta];
  }

  /** `filtrar_por_anyo`: the questions asked in year `anyo`. */
  function FiltrarPorAnyo(ps: seq<Pregunta>, anyo: int): (r: seq<Pregunta>)
    ensures |r| <= |ps|
    ensures forall p :: p in r ==> p in ps && p.anyo == anyo
  {
    Filter(ps, HasKey(AnyoDe, anyo))
  }

  /** Every question of year `anyo` is kept, as often as it occurs, and in
      the order of the input. */
  lemma FiltrarPorAnyoExacto(ps: seq<Pregunta>, anyo: int)
    ensures forall p :: multiset(FiltrarPorAnyo(ps, anyo))[p] == if p.anyo == anyo then multiset(ps)[p] else 0
    ensures IsSubsequence(FiltrarPorAnyo(ps, anyo), ps)
  {
    FilterElements(ps, HasKey(AnyoDe, anyo));
  }

  /** `obtener_etiquetas`: the set of tags used. */
  function ObtenerEtiquetas(ps: seq<Pregunta>): (r: set<string>)
    ensures forall e :: e in r <==> exists p :: p in ps && p.etiqueta == e
    ensures |r| <= |ps|
  {
    SetOfLength(Etiquetas(ps));
    assert forall e :: e in Etiquetas(ps) <==> exists p :: p in ps && p.etiqueta == e by {
      forall e
        ensures e in Etiquetas(ps) <==> exists p :: p in ps && p.etiqueta == e
      {
        MapSeqIn(ps, EtiquetaDe, e);
      }
    }
    set e | e in Etiquetas(ps)
  }

  /** A sequence has at least as many elements as the set of its elements,
      and exactly as many when it has no repetitions. */
  lemma {:induction false} SetOfLength<T>(s: seq<T>)
    ensures |set x | x in s| <= |s|
    ensures NoDup(s) ==> |set x | x in s| == |s|
  {
    if s != [] {
      var s', x := s[..|s| - 1], s[|s| - 1];
      assert s == s' + [x];
      SetOfLength(s');
      assert (set y | y in s) == (set y | y in s') + {x};
      NoDupSnoc(s', x);
    }
  }

  /** `(p.titulo, p.puntuacion)` */
  function Par(p: Pregunta): (string, int) { (p.titulo, p.puntuacion) }

  /** `[(p.titulo, p.puntuacion) for p in ps]` */
  function Pares(ps: seq<Pregunta>): seq<(string, int)> {
    MapSeq(ps, Par)
  }

  /** `obtener_preguntas_mejor_valoradas2`: the pairs sorted by `sorted`,
      then cut with `resultado[:n]` when longer than `n`. */
  function ObtenerPreguntasMejorValoradas2(ps: seq<Pregunta>, n: int := 10): (r: seq<(string, int)>)
    ensures r <= SortDesc(Pares(ps))
  {
    var res := SortDesc(Pares(ps));
    if |res| > n then SliceTo(res, n) else res
  }

  /** The result has `n` pairs, or all of them when there are fewer (a
      negative `n` drops `-n` pairs from the end, as the slice does); it is
      sorted by decreasing score; its pairs are pairs of the input; and no
      pair left out scores higher than a pair kept. */
  lemma MejorValoradas(ps: seq<Pregunta>, n: int)
    ensures var r := ObtenerPreguntasMejorValoradas2(ps, n);
      |r| == (if n >= 0 then Min(n, |ps|) else Max(0, |ps| + n)) &&
      SortedDesc(r) &&
      multiset(r) <= multiset(Pares(ps)) &&
      forall i, j :: 0 <= i < |r| <= j < |ps| ==> SortDesc(Pares(ps))[j].1 <= r[i].1
  {
    var res := SortDesc(Pares(ps));
    var r := ObtenerPreguntasMejorValoradas2(ps, n);
    assert res == r + res[|r|..];
    assert multiset(res) == multiset(r) + multiset(res[|r|..]);
  }

  /** Without `n`, the report holds the ten best-rated questions, or all
      of them when there are fewer. */
  lemma MejorValoradasPorDefecto(ps: seq<Pregunta>)
    ensures |ObtenerPreguntasMejorValoradas2(ps)| == Min(10, |ps|)
  {
    MejorValoradas(ps, 10);
  }

  /** The ranking does not depend on the stable sort that produced it:
      whatever list sorted by decreasing score keeps the questions with
      equal score in their input order, the result is its beginning. */
  lemma MejorValoradasEstable(ps: seq<Pregunta>, n: int, ranking: seq<(string, int)>)
    requires SortedDesc(ranking) && SameTies(ranking, Pares(ps))
    ensures ObtenerPreguntasMejorValoradas2(ps, n) <= ranking
  {
    StableSortIsSortDesc(Pares(ps), ranking);
  }

  /** Each pair of the result is the title and score of a question. */
  lemma MejorValoradasDePreguntas(ps: seq<Pregunta>, n: int)
    ensures forall x :: x in ObtenerPreguntasMejorValoradas2(ps, n) ==> exists p :: p in ps && x == (p.titulo, p.puntuacion)
  {
    var r := ObtenerPreguntasMejorValoradas2(ps, n);
    MejorValoradas(ps, n);
    forall x | x in r
      ensures exists p :: p in ps && x == (p.titulo, p.puntuacion)
    {
      assert x in multiset(r);
      MapSeqIn(ps, Par, x);
    }
  }

  /** `obtener_preguntas_mejor_valoradas`: the pairs are written into a
      list, which is sorted in place and then cut. It computes the same
      list as the `sorted` variant. */
  method ObtenerPreguntasMejorValoradas(ps: seq<Pregunta>, n: int := 10) returns (resultado: seq<(string, int)>)
    ensures resultado == ObtenerPreguntasMejorValoradas2(ps, n)
  {
    var a := new (string, int)[|ps|](i requires 0 <= i < |ps| => Par(ps[i]));
    assert a[..] == Pares(ps);
    SortInPlace(a);
    resultado := a[..];
    if |resultado| > n {
      resultado := SliceTo(resultado, n);
    }
  }

  /** `frecuencia_etiquetas`: `dict(Counter(p.etiqueta for p in ps))`. */
  function FrecuenciaEtiquetas(ps: seq<Pregunta>): (r: Dict<string, int>)
    ensures Valid(r)
  {
    Counter(Etiquetas(ps))
  }

  /** The keys are the tags present, in the order they first occur; each
      value is the number of questions with that tag; the values add up to
      the number of questions. */
  lemma FrecuenciaEtiquetasCuenta(ps: seq<Pregunta>)
    ensures FrecuenciaEtiquetas(ps).keys == Distinct(Etiquetas(ps))
    ensures forall e :: e in FrecuenciaEtiquetas(ps).entries <==> e in ObtenerEtiquetas(ps)
    ensures forall e :: Get(FrecuenciaEtiquetas(ps), e, 0) == |Filter(ps, HasKey(EtiquetaDe, e))|
    ensures Total(Items(FrecuenciaEtiquetas(ps))) == |ps|
  {
    CounterCounts(Etiquetas(ps));
    CounterTotal(Etiquetas(ps));
    forall e
      ensures Get(FrecuenciaEtiquetas(ps), e, 0) == |Filter(ps, HasKey(EtiquetaDe, e))|
    {
      FilterHasKeyCount(ps, EtiquetaDe, e);
    }
  }

  /** There are as many keys in the frequency dict as tags in the set of tags. */
  lemma FrecuenciaEtiquetasClaves(ps: seq<Pregunta>)
    ensures |FrecuenciaEtiquetas(ps).keys| == |ObtenerEtiquetas(ps)|
  {
    var d := Distinct(Etiquetas(ps));
    FrecuenciaEtiquetasCuenta(ps);
    SetOfLength(d);
    assert (set e | e in d) == ObtenerEtiquetas(ps);
  }

  /** `frecuencia_etiquetas2`: the explicit counting loop builds the same
      dict, keys in the same order, as `Counter`. */
  method FrecuenciaEtiquetas2(ps: seq<Pregunta>) returns (res: Dict<string, int>)
    ensures res == FrecuenciaEtiquetas(ps)
  {
    res := Empty();
    for i := 0 to |ps|
      invariant res == Counter(Etiquetas(ps[..i]))
    {
      var clave := ps[i].etiqueta;
      if clave in res.entries {
        res := Put(res, clave, res.entries[clave] + 1);
      } else {
        res := Put(res, clave, 1);
      }
      EtiquetasSnoc(ps, i);
      CounterSnoc(Etiquetas(ps[..i]), clave);
    }
    assert ps[..|ps|] == ps;
  }

  /** The series of `mostrar_distribucion_etiquetas`: `frecuencias.get(e, 0)`
      for each tag `e` asked for. */
  function DistribucionEtiquetas(ps: seq<Pregunta>, etiquetas: seq<string>): (r: seq<int>)
    ensures |r| == |etiquetas|
    ensures forall i :: 0 <= i < |r| ==> r[i] == |Filter(ps, HasKey(EtiquetaDe, etiquetas[i]))|
    ensures forall i :: 0 <= i < |r| ==> (r[i] == 0 <==> etiquetas[i] !in ObtenerEtiquetas(ps))
  {
    var frecuencias := FrecuenciaEtiquetas(ps);
    FrecuenciaEtiquetasCuenta(ps);
    CounterCounts(Etiquetas(ps));
    seq(|etiquetas|, i requires 0 <= i < |etiquetas| => Get(frecuencias, etiquetas[i], 0))
  }
}
