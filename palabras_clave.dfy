/** Keywords of a question title, and the ranking of keywords by frequency
    over a list of questions. */
module PalabrasClave {
  import opened Seqs
  import opened Dicts
  import opened Ordenacion
  import opened Cadenas
  import opened Preguntas

  /** The symbols stripped from both ends of each term. The inverted
      exclamation mark and the exclamation mark are not among them. */
  const SIMBOLOS: string := "\U{BF}?-+/*[](){},;.<>="

  predicate EsSimbolo(c: char) { c in SIMBOLOS }

  lemma SimbolosNoSonLetras()
    ensures |SIMBOLOS| == 18
    ensures forall c :: EsSimbolo(c) ==> !EsLetra(c) && !EsEspacio(c)
  {
  }

  /** `t.strip().strip(simbolos)` */
  function Limpiar(t: string): (r: string)
    ensures r == [] || (!EsSimbolo(r[0]) && !EsSimbolo(r[|r| - 1]))
    ensures forall c :: c in r ==> c in t
  {
    QuitarCaracteres(t, EsEspacio);
    QuitarCaracteres(Quitar(t, EsEspacio), EsSimbolo);
    Quitar(Quitar(t, EsEspacio), EsSimbolo)
  }

  /** `[t.strip().strip(simbolos) for t in titulo.lower().split(' ')]` */
  function Terminos(titulo: string): (r: seq<string>)
    ensures |r| >= 1
    ensures forall t, c :: t in r && c in t ==> c != ' ' && !EsMayuscula(c)
  {
    var partes := Dividir(Minusculas(titulo), ' ');
    DividirCaracteres(Minusculas(titulo), ' ');
    forall t, c | t in MapSeq(partes, Limpiar) && c in t
      ensures c != ' ' && !EsMayuscula(c)
    {
      MapSeqIn(partes, Limpiar, t);
    }
    MapSeq(partes, Limpiar)
  }

  /** `t.isalpha() and t not in stopwords` */
  function EsPalabraClave(stopwords: seq<string>): (f: string -> bool)
    ensures forall t :: f(t) <==> EsAlfabetica(t) && t !in stopwords
  {
    t => EsAlfabetica(t) && t !in stopwords
  }

  /** `obtener_palabras_clave(titulo, stopwords)`: every keyword is a
      non-empty run of lower-case letters, neither starting nor ending with
      one of the symbols, and not a stopword. */
  function ObtenerPalabrasClave(titulo: string, stopwords: seq<string> := []): (r: seq<string>)
    ensures forall t :: t in r ==> EsAlfabetica(t) && t !in stopwords
    ensures forall t :: t in r ==> |t| > 0 && !EsSimbolo(t[0]) && !EsSimbolo(t[|t| - 1])
    ensures forall t, c :: t in r && c in t ==> !EsMayuscula(c)
  {
    SimbolosNoSonLetras();
    Filter(Terminos(titulo), EsPalabraClave(stopwords))
  }

  /** The keywords are exactly the terms that pass the two tests, each as
      often as it occurs among the terms, in the order of the title. */
  lemma PalabrasClaveExactas(titulo: string, stopwords: seq<string>)
    ensures forall t :: multiset(ObtenerPalabrasClave(titulo, stopwords))[t] ==
              if EsAlfabetica(t) && t !in stopwords then multiset(Terminos(titulo))[t] else 0
    ensures IsSubsequence(ObtenerPalabrasClave(titulo, stopwords), Terminos(titulo))
  {
    FilterElements(Terminos(titulo), EsPalabraClave(stopwords));
  }

  /** With no stopwords, the default, only the alphabetic test removes terms. */
  lemma SinStopwords(titulo: string)
    ensures ObtenerPalabrasClave(titulo) == Filter(Terminos(titulo), EsAlfabetica)
  {
    FilterSameTest(Terminos(titulo), EsPalabraClave([]), EsAlfabetica);
  }

  /** `t not in stopwords` */
  function NoEsStopword(stopwords: seq<string>): (f: string -> bool)
    ensures forall t :: f(t) <==> t !in stopwords
  {
    t => t !in stopwords
  }

  /** More stopwords remove more keywords and nothing else: the keywords
      for `stopwords + mas` are those for `stopwords` that are not in `mas`. */
  lemma MasStopwords(titulo: string, stopwords: seq<string>, mas: seq<string>)
    ensures ObtenerPalabrasClave(titulo, stopwords + mas) ==
            Filter(ObtenerPalabrasClave(titulo, stopwords), NoEsStopword(mas))
  {
    FilterFilter(Terminos(titulo), EsPalabraClave(stopwords), NoEsStopword(mas), EsPalabraClave(stopwords + mas));
  }

  /** `sum((obtener_palabras_clave(p.titulo, stopwords) for p in ps), [])` */
  function Palabras(ps: seq<Pregunta>, stopwords: seq<string>): seq<string> {
    if ps == [] then [] else ObtenerPalabrasClave(ps[0].titulo, stopwords) + Palabras(ps[1..], stopwords)
  }

  /** A word is among the keywords of all the titles exactly when it is a
      keyword of some question's title. */
  lemma {:induction false} PalabrasDeTitulos(ps: seq<Pregunta>, stopwords: seq<string>)
    ensures forall t :: t in Palabras(ps, stopwords) <==> exists p :: p in ps && t in ObtenerPalabrasClave(p.titulo, stopwords)
  {
    if ps != [] {
      PalabrasDeTitulos(ps[1..], stopwords);
      forall t
        ensures t in Palabras(ps, stopwords) <==> exists p :: p in ps && t in ObtenerPalabrasClave(p.titulo, stopwords)
      {
        if exists p :: p in ps && t in ObtenerPalabrasClave(p.titulo, stopwords) {
          var p :| p in ps && t in ObtenerPalabrasClave(p.titulo, stopwords);
          if p != ps[0] {
            assert p in ps[1..];
          }
        }
      }
    }
  }

  /** `frecuencia_palabras_clave`: the items of `Counter(palabras)`, in
      first-occurrence order, sorted by `sorted` by decreasing count. */
  function FrecuenciaPalabrasClave(ps: seq<Pregunta>, stopwords: seq<string> := []): (r: seq<(string, int)>)
    ensures SortedDesc(r)
  {
    var frecuencias := Counter(Palabras(ps, stopwords));
    SortDesc(Items(frecuencias))
  }

  /** Each distinct keyword extracted from the titles occurs exactly once. */
  lemma FrecuenciaPalabrasClaveEtiquetas(ps: seq<Pregunta>, stopwords: seq<string>)
    ensures NoDup(MapSeq(FrecuenciaPalabrasClave(ps, stopwords), Label))
    ensures forall k :: k in MapSeq(FrecuenciaPalabrasClave(ps, stopwords), Label) <==> k in Palabras(ps, stopwords)
  {
    var w := Palabras(ps, stopwords);
    CounterCounts(w);
    ItemsLabels(Counter(w));
    SortDescLabels(Items(Counter(w)));
  }

  /** Each keyword is paired with the number of times it was extracted. */
  lemma FrecuenciaPalabrasClaveCuenta(ps: seq<Pregunta>, stopwords: seq<string>)
    ensures forall x :: x in FrecuenciaPalabrasClave(ps, stopwords) ==> x.1 == multiset(Palabras(ps, stopwords))[x.0]
  {
    var w := Palabras(ps, stopwords);
    var d := Counter(w);
    var it := Items(d);
    CounterCounts(w);
    forall x | x in SortDesc(it)
      ensures x.1 == multiset(w)[x.0]
    {
      assert x in multiset(it);
      var i :| 0 <= i < |it| && it[i] == x;
      assert Get(d, x.0, 0) == d.entries[x.0];
    }
  }

  /** The counts add up to the number of keywords extracted from all the
      titles. */
  lemma FrecuenciaPalabrasClaveTotal(ps: seq<Pregunta>, stopwords: seq<string>)
    ensures Total(FrecuenciaPalabrasClave(ps, stopwords)) == |Palabras(ps, stopwords)|
  {
    var w := Palabras(ps, stopwords);
    SortDescTotal(Items(Counter(w)));
    CounterTotal(w);
  }

  /** Keywords with equal counts keep the order in which they first occur
      in the titles: the result is the stable sort of the items, whose
      keys come in first-occurrence order. */
  lemma FrecuenciaPalabrasClaveEmpates(ps: seq<Pregunta>, stopwords: seq<string>)
    ensures SameTies(FrecuenciaPalabrasClave(ps, stopwords), Items(Counter(Palabras(ps, stopwords))))
    ensures MapSeq(Items(Counter(Palabras(ps, stopwords))), Label) == Distinct(Palabras(ps, stopwords))
  {
    var w := Palabras(ps, stopwords);
    SortDescTies(Items(Counter(w)));
    ItemsLabels(Counter(w));
    CounterCounts(w);
  }
}
