# Stack Overflow question reports, modelled in Dafny

The Python module `src/stackoverflow.py` analyses a list of Stack Overflow
questions about Python. Each question is a record
`Pregunta(puntuacion, titulo, anyo, etiqueta)`: score, title, year and main
tag. This project models the reports the module computes from that list once
it is in memory:

- the questions of one year;
- the set of tags;
- the best-rated questions;
- the tag frequencies and the pie-chart series built from them;
- the keywords of a title and the keyword ranking;
- the questions grouped by year or by a chosen list of tags;
- the restricted tag counts;
- the years and per-tag series of the evolution line chart.

Python values are modelled explicitly:

- A `dict` is an insertion-ordered value, `Dicts.Dict`. It holds the keys in
  insertion order plus a map. Iterating `items()` follows the key order, so
  every statement about order is about what Python does.
- `collections.Counter` and grouping under a key are defined as the loops
  build them, one element at a time. Lemmas tie them to reference
  definitions: `Distinct` (the first-occurrence order of keys), multiset
  counts and `Filter`.
- `list.sort` and `sorted` are stable. They are modelled by an insertion
  sort. `Ordenacion.StableSortIsSortDesc` proves that any list sorted by
  decreasing score that keeps equal scores in input order equals that sort.
  The results therefore do not depend on Python's sorting algorithm.
- The slice `resultado[:n]` follows Python's rules, including negative `n`.
- `str.split(' ')`, `str.strip()`, `str.strip(chars)`, `str.lower()` and
  `str.isalpha()` are written out on `seq<char>`:
  - whitespace is the exact character set of `str.isspace`;
  - letters and case are ASCII.

Modules, one file each:

- `Seqs` (`seqs.dfy`): sequence helpers: filtering, mapping, distinct
  elements, the Python slice.
- `Dicts` (`dicts.dfy`): the ordered dict, `Counter`, grouping.
- `Ordenacion` (`ordenacion.dfy`): the stable descending sort of pairs, the
  same sort done in place on an array, and the ascending sort of integers.
- `Preguntas` (`preguntas.dfy`): the record and the reports computed
  directly from the list.
- `Cadenas` (`cadenas.dfy`): the string methods.
- `PalabrasClave` (`palabras_clave.dfy`): keywords and their ranking.
- `Agrupacion` (`agrupacion.dfy`): grouping and restricted counting.
- `Evolucion` (`evolucion.dfy`): the evolution chart's data.

The code is followed where its doc comments disagree with it:

- The symbols stripped from the ends of each term are the 18 of the literal
  at `src/stackoverflow.py:191`. The doc comment at line 187 also lists `¡`
  and `!`, but the code does not strip them.
- `n` in the top-n report is not required to be non-negative. A negative
  `n` cuts `-n` pairs from the end, as the slice does.

## Model

| member | source | states |
|---|---|---|
| Preguntas.FiltrarPorAnyo | src/stackoverflow.py:90 | the result is no longer than the input and holds only input questions of the given year |
| Preguntas.FiltrarPorAnyoExacto | src/stackoverflow.py:90 | every question of the year is kept, as often as it occurs, and no other; the result is an order-preserving subsequence of the input |
| Preguntas.ObtenerEtiquetas | src/stackoverflow.py:102 | a tag is in the set exactly when some question carries it; the set has at most as many tags as there are questions |
| Preguntas.ObtenerPreguntasMejorValoradas2 | src/stackoverflow.py:123-128 | the result is a prefix of the (title, score) pairs stably sorted by decreasing score |
| Preguntas.MejorValoradas | src/stackoverflow.py:123-128 | the result has min(n, number of questions) pairs, or drops -n from the end when n is negative; it is sorted by decreasing score; its pairs come from the input; no pair left out scores higher than one kept |
| Preguntas.MejorValoradasPorDefecto | src/stackoverflow.py:123 | called without `n`, the report holds min(10, number of questions) pairs |
| Preguntas.Pares | src/stackoverflow.py:116 | defines the list of (title, score) pairs; its use is stated by MejorValoradasDePreguntas |
| Preguntas.MejorValoradasEstable | src/stackoverflow.py:124-125 | whichever stable decreasing sort produced the ranking, the report is its beginning: ties stay in input order |
| Preguntas.MejorValoradasDePreguntas | src/stackoverflow.py:124 | each pair of the report is the title and score of some question |
| Preguntas.ObtenerPreguntasMejorValoradas | src/stackoverflow.py:116-120 | the in-place sort of the pair list followed by the cut gives the same list as the `sorted` variant |
| Ordenacion.SortInPlace | src/stackoverflow.py:117 | after sorting in place, the array holds the stable decreasing sort of its old contents |
| Ordenacion.InsertInPlace | src/stackoverflow.py:117 | one insertion step puts element i among the sorted prefix, leaving the rest of the array untouched |
| Ordenacion.SortDesc | src/stackoverflow.py:124-125 | the sorted list is a permutation of its input, of the same length, in non-increasing order of the second component |
| Ordenacion.SortDescTies | src/stackoverflow.py:117 | pairs with the same score come in the same order as in the input (stability) |
| Ordenacion.StableSortIsSortDesc | src/stackoverflow.py:117 | any list in non-increasing order that keeps every tie in input order equals the model's sort |
| Ordenacion.SortDescTotal | src/stackoverflow.py:208 | sorting keeps the sum of the counts |
| Ordenacion.SortDescLabels | src/stackoverflow.py:208 | sorting keeps the set of labels, and keeps labels free of repetitions |
| Seqs.SliceTo | src/stackoverflow.py:119 | `s[:n]` is a prefix of `s` of length min(n, len(s)) for n >= 0 and max(0, len(s)+n) for negative n |
| Preguntas.FrecuenciaEtiquetas | src/stackoverflow.py:143-144 | the frequency dict is well formed (keys without repetition, matching the map) |
| Preguntas.FrecuenciaEtiquetasCuenta | src/stackoverflow.py:143-144 | the keys are the tags present in first-occurrence order; a tag is a key exactly when it is used; each value is the number of questions with that tag; the values add up to the number of questions |
| Preguntas.FrecuenciaEtiquetasClaves | src/stackoverflow.py:143-144 | the dict has as many keys as the tag set has tags |
| Preguntas.FrecuenciaEtiquetas2 | src/stackoverflow.py:146-154 | the explicit counting loop returns the same dict as `Counter`, keys in the same order |
| Dicts.Get | src/stackoverflow.py:166 | defines `d.get(k, default)`; stated together with `d[k] = v` by PutGet |
| Dicts.Put | src/stackoverflow.py:153 | `d[k] = v` keeps the dict well formed |
| Dicts.PutGet | src/stackoverflow.py:150-153 | after `d[k] = v`, `k` reads `v`, every other key reads as before, existing keys keep their places and a new key goes last |
| Dicts.Items | src/stackoverflow.py:208 | defines `d.items()` in key order; its labels are stated by ItemsLabels |
| Dicts.Counter | src/stackoverflow.py:143 | `Counter` built one element at a time is a well-formed dict; its contents are stated by CounterCounts and CounterTotal |
| Dicts.CounterCounts | src/stackoverflow.py:143 | `Counter` has the distinct elements as keys, in first-occurrence order, each mapped to its number of occurrences |
| Dicts.CounterTotal | src/stackoverflow.py:143 | the counts of a `Counter` add up to the length of the list |
| Dicts.CounterSnoc | src/stackoverflow.py:150-153 | counting one more element increments its count, adding it last with count 1 when new |
| Dicts.TotalIncrement | src/stackoverflow.py:150-153 | an increment raises the sum of the counts by one |
| Preguntas.DistribucionEtiquetas | src/stackoverflow.py:165-166 | one value per tag asked for; value i is the number of questions with tag i; it is 0 exactly when no question uses that tag |
| Cadenas.Minuscula | src/stackoverflow.py:192 | an upper-case letter becomes the lower-case letter at the same place in the alphabet; any other character is unchanged; the result is not upper case and is a letter exactly when the original is |
| Cadenas.Minusculas | src/stackoverflow.py:192 | the lowered string has the same length, each character lowered, none upper case |
| Cadenas.EsEspacio | src/stackoverflow.py:193 | defines the characters `strip()` removes: those for which `str.isspace` holds |
| Cadenas.EsAlfabetica | src/stackoverflow.py:194 | defines `isalpha`: non-empty and made of letters only |
| Cadenas.Dividir | src/stackoverflow.py:193 | `split(' ')` gives at least one piece and no piece contains the separator |
| Cadenas.UnirDividir | src/stackoverflow.py:193 | joining the pieces with the separator gives back the string |
| Cadenas.DividirUnir | src/stackoverflow.py:193 | splitting a join of separator-free pieces gives back the pieces |
| Cadenas.DividirCaracteres | src/stackoverflow.py:193 | every character of a piece is a character of the string |
| Cadenas.QuitarIzquierda | src/stackoverflow.py:193 | left stripping removes a prefix of stripped characters and stops at one it keeps |
| Cadenas.QuitarDerecha | src/stackoverflow.py:193 | right stripping removes a suffix of stripped characters and stops at one it keeps |
| Cadenas.Quitar | src/stackoverflow.py:193 | `strip` returns a middle slice with only stripped characters outside it, starting and ending with a kept character |
| Cadenas.QuitarIdempotente | src/stackoverflow.py:193 | stripping twice is stripping once |
| Cadenas.QuitarCaracteres | src/stackoverflow.py:193 | a stripped string has only characters of the original |
| PalabrasClave.SimbolosNoSonLetras | src/stackoverflow.py:191 | the symbol set has 18 characters, none a letter or whitespace |
| PalabrasClave.Limpiar | src/stackoverflow.py:193 | a cleaned term neither starts nor ends with a symbol and has only characters of the raw term |
| PalabrasClave.Terminos | src/stackoverflow.py:192-193 | there is at least one term; no term holds a space or an upper-case letter |
| PalabrasClave.ObtenerPalabrasClave | src/stackoverflow.py:191-195 | every keyword is non-empty, alphabetic, lower case, not a stopword, and neither starts nor ends with a symbol |
| PalabrasClave.PalabrasClaveExactas | src/stackoverflow.py:194 | every term that passes both tests is kept as often as it occurs, no other term is, and the order of the title is kept |
| PalabrasClave.SinStopwords | src/stackoverflow.py:194 | with no stopwords only the alphabetic test removes terms |
| PalabrasClave.MasStopwords | src/stackoverflow.py:194 | adding stopwords removes exactly the keywords that are among the added ones |
| PalabrasClave.Palabras | src/stackoverflow.py:206 | defines the concatenation of the keywords of all titles, in question order; stated by PalabrasDeTitulos |
| PalabrasClave.PalabrasDeTitulos | src/stackoverflow.py:206 | a word is among the extracted keywords exactly when it is a keyword of some question's title |
| PalabrasClave.FrecuenciaPalabrasClave | src/stackoverflow.py:206-208 | the ranking is in non-increasing order of frequency |
| Dicts.ItemsLabels | src/stackoverflow.py:208 | the first components of `items()` are the dict's keys, in order |
| PalabrasClave.FrecuenciaPalabrasClaveEtiquetas | src/stackoverflow.py:206-208 | each keyword extracted from any title occurs exactly once in the ranking, and nothing else does |
| PalabrasClave.FrecuenciaPalabrasClaveCuenta | src/stackoverflow.py:206-208 | each keyword is paired with the number of times it was extracted |
| PalabrasClave.FrecuenciaPalabrasClaveTotal | src/stackoverflow.py:206-208 | the frequencies add up to the number of keywords extracted from all titles |
| PalabrasClave.FrecuenciaPalabrasClaveEmpates | src/stackoverflow.py:207-208 | keywords with equal frequency keep their first-occurrence order |
| Agrupacion.PreguntasPorAnyo | src/stackoverflow.py:223-226 | the grouping by year is a well-formed dict |
| Agrupacion.AgruparPreguntasPorAnyo | src/stackoverflow.py:223-226 | the `setdefault`/`append` loop builds the grouping by year |
| Agrupacion.PreguntasPorAnyoGrupos | src/stackoverflow.py:223-226 | the keys are the years present in first-occurrence order; a year is a key exactly when some question has it; each group is `filtrar_por_anyo` of its year, in input order; the group sizes add up to the number of questions |
| Dicts.GroupBy | src/stackoverflow.py:224-225 | the grouping built one element at a time is a well-formed dict; its contents are stated by GroupByGroups, GroupByCovers, GroupByMembers and GroupBySizes |
| Dicts.GroupBySnoc | src/stackoverflow.py:225 | one more element is appended to the group of its key, which is created last when new |
| Dicts.GroupByGroups | src/stackoverflow.py:224-225 | the groups are keyed by the distinct keys in first-occurrence order, and each group is the order-preserving filter of its key |
| Dicts.GroupByCovers | src/stackoverflow.py:224-225 | every element is in the group of its own key |
| Dicts.GroupByMembers | src/stackoverflow.py:224-225 | every member of a group has that group's key; groups are non-empty subsequences of the input |
| Dicts.GroupBySizes | src/stackoverflow.py:224-225 | the group sizes are the `Counter` of the keys |
| Dicts.GroupByTotal | src/stackoverflow.py:224-225 | the group sizes add up to the number of elements |
| Agrupacion.ContarPorEtiqueta | src/stackoverflow.py:297 | the restricted count is a well-formed dict |
| Agrupacion.ContarPorEtiquetaClaves | src/stackoverflow.py:297 | a tag is a key exactly when it is asked for and used by some question |
| Agrupacion.ContarPorEtiquetaCuenta | src/stackoverflow.py:297 | a tag asked for counts as in the full tag frequencies; any other tag counts 0 |
| Agrupacion.ContarPorEtiquetaTotal | src/stackoverflow.py:297 | the counts add up to the number of questions whose tag is asked for |
| Agrupacion.ContarPorEtiquetaSnoc | src/stackoverflow.py:303-307 | one more question increments its tag's count when the tag is asked for, and changes nothing otherwise |
| Agrupacion.ContarPorEtiqueta2 | src/stackoverflow.py:300-308 | the explicit loop returns the same dict as the `Counter` version, keys in the same order |
| Agrupacion.GruposPorEtiqueta | src/stackoverflow.py:312-320 | the grouping by tag is a well-formed dict |
| Agrupacion.GruposPorEtiquetaSnoc | src/stackoverflow.py:315-319 | one more question is appended to its tag's list when the tag is asked for, and changes nothing otherwise |
| Agrupacion.AgruparPorEtiqueta | src/stackoverflow.py:312-320 | the loop builds the grouping of the questions whose tag is asked for |
| Agrupacion.GruposPorEtiquetaGrupos | src/stackoverflow.py:312-320 | only tags asked for are keys; the list of a tag asked for holds its questions in input order |
| Agrupacion.GruposYCuentas | src/stackoverflow.py:297 | the sizes of the tag groups are exactly the restricted counts, keys in the same order |
| Ordenacion.SortAsc | src/stackoverflow.py:270 | `sorted` on integers returns a permutation in non-decreasing order |
| Ordenacion.SortAscOfAscending | src/stackoverflow.py:270 | sorting a list already in order leaves it unchanged |
| Ordenacion.SortAscStrict | src/stackoverflow.py:270 | sorting a list without repetitions gives its elements in strictly increasing order |
| Evolucion.AnyosOrdenados | src/stackoverflow.py:270 | defines `sorted(preguntas_por_anyo)`; stated by AnyosOrdenadosCrecientes |
| Evolucion.AnyosOrdenadosCrecientes | src/stackoverflow.py:269-270 | the chart's years are every year with questions, once each, in strictly increasing order |
| Evolucion.Frecuencia | src/stackoverflow.py:275 | defines the number of questions of a list with the tag |
| Evolucion.Serie | src/stackoverflow.py:273-276 | defines one tag's series over the items of a grouping, in key order; SerieBucle is proved to compute it |
| Evolucion.Evolucion | src/stackoverflow.py:269-276 | defines the series as written (the as-written half of the finding); stated by EvolucionCuenta |
| Evolucion.Evoluciones | src/stackoverflow.py:271-277 | defines the list of series, one per tag in tag order; both builders are proved to return it |
| Evolucion.EvolucionCuenta | src/stackoverflow.py:272-277 | each series has one count per year in the dict's key order (first occurrence), and each count is the number of that year's questions with the tag |
| Evolucion.EvolucionesPaso | src/stackoverflow.py:277 | one more tag appends its series to the list of series |
| Evolucion.SerieBucle | src/stackoverflow.py:273-276 | the inner loop over `items()` builds the series of one tag |
| Evolucion.MostrarEvolucionEtiquetas | src/stackoverflow.py:269-277 | the years passed to the chart are the sorted years, and there is one series per tag, in tag order |
| Evolucion.ConteosPorAnyo | src/stackoverflow.py:287-288 | the dict of per-year counts is well formed and has exactly the grouping's years as keys, in the grouping's order |
| Evolucion.Lectura | src/stackoverflow.py:291 | defines `[dicc.get(etiqueta, 0) for año, dicc in conteos.items()]`; stated by LecturaEsSerie |
| Evolucion.LecturaEsSerie | src/stackoverflow.py:287-291 | reading a tag asked for out of the per-year counts gives the same series as counting it year by year |
| Evolucion.MostrarEvolucionEtiquetas2 | src/stackoverflow.py:285-292 | the second builder hands the chart the same years and the same series as the first |
| Evolucion.EvolucionAlineada | src/stackoverflow.py:263-266 | defines the corrected series, one count per sorted year (the corrected half of the finding); stated by EvolucionAlineadaCuenta and EvolucionOrdenada |
| Evolucion.EvolucionAlineadaCuenta | src/stackoverflow.py:263-266 | the series aligned with the sorted years has one count per year, each the number of that year's questions with the tag |
| Evolucion.DistinctAscending | src/stackoverflow.py:274 | years first occur in increasing order when the questions come sorted by year |
| Evolucion.EvolucionOrdenada | src/stackoverflow.py:270-277 | when the questions come sorted by year, the series as written lines up with the sorted years |
| Evolucion.EjemploGrupos | src/stackoverflow.py:223-226 | on the example, the groups come 2009 first and then 2008, with their questions |
| Evolucion.EvolucionDesalineada | src/stackoverflow.py:270-277 | on the example, the years read 2008, 2009 while the series as written reads 1, 2; the aligned series reads 2, 1 |

## Left out

- `leer_preguntas` (`src/stackoverflow.py:63-76`) is not part of this model. It opens a file and parses CSV. The reports take the list of records as a parameter instead.
- The drawing calls at `src/stackoverflow.py:167`, `:279` and `:294` are left out, as is `src/graficas.py`. They only render charts. The model returns the data handed to them: the pie series, the years and the evolution series.
- `src/stackoverflow_test.py` is left out. It prints results, times them with the clock and reads a stopword file; it states nothing to prove.
- The alternative implementations kept in string literals after the `return` of `agrupar_preguntas_por_anyo` (`src/stackoverflow.py:227-243`) are left out. They are never executed.
- Cadenas.Minuscula: `str.lower` and `str.isalpha` are modelled on ASCII letters only. Non-ASCII letters are neither lowered nor counted as letters.
- Ordenacion.SortDesc: Python sorts with Timsort; the model uses an insertion sort. Both are stable sorts by the same key, so `Ordenacion.StableSortIsSortDesc` shows they give the same list. Running time is not modelled.
- Dicts and lists are values, not shared objects. The in-place updates (`res[k] += 1`, `setdefault(...).append(p)`, `evolucion.append`) become reassignment of the whole value. Aliasing between a dict and the lists it holds is not modelled. No list escapes while it is being built, so nothing observable is lost.
- Preguntas.FrecuenciaEtiquetas, Agrupacion.ContarPorEtiqueta, Agrupacion.GruposPorEtiqueta and Agrupacion.PreguntasPorAnyo only promise a well-formed dict in their own contract. Their contents are stated by the lemmas listed beside them in the table.
- Python's dynamic typing is not modelled: scores and years are integers and titles and tags are strings, as `leer_preguntas` builds them.

## Findings

| source | as written | input that shows it | evidently intended | confidence | as-written member | corrected member |
|---|---|---|---|---|---|---|
| src/stackoverflow.py:270-277 (and 286-291) | the years handed to the chart are sorted, but each series follows the dict's insertion order of years, which is the order the years first occur in the input | three `python` questions from 2009, 2008, 2008, in that order: years [2008, 2009], series [1, 2] | each series aligned with the sorted years, as the doc comment at lines 263-266 says: [2, 1] | not executed | Evolucion.EvolucionDesalineada (on Evolucion.Evolucion) | Evolucion.EvolucionAlineada, with Evolucion.EvolucionAlineadaCuenta and Evolucion.EvolucionOrdenada |
