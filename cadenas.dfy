/** The Python string methods the keyword report uses: `str.lower`,
    `str.split(' ')`, `str.strip()`, `str.strip(chars)` and `str.isalpha`.
    Letters and case are those of ASCII; whitespace is the exact set of
    characters for which Python's `str.isspace` holds. */
module Cadenas {
  import opened Seqs

  predicate EsMayuscula(c: char) { 'A' <= c <= 'Z' }

  /** The letters `str.isalpha` accepts, restricted to ASCII. */
  predicate EsLetra(c: char) { 'a' <= c <= 'z' || 'A' <= c <= 'Z' }

  /** `c.isspace()` */
  predicate EsEspacio(c: char) {
    var k := c as int;
    9 <= k <= 13 || 28 <= k <= 32 || k == 0x85 || k == 0xA0 || k == 0x1680 ||
    0x2000 <= k <= 0x200A || k == 0x2028 || k == 0x2029 || k == 0x202F || k == 0x205F || k == 0x3000
  }

  /** `c.lower()` */
  function Minuscula(c: char): (r: char)
    ensures !EsMayuscula(r)
    ensures EsLetra(r) == EsLetra(c)
    ensures !EsMayuscula(c) ==> r == c
    ensures EsMayuscula(c) ==> r as int - 'a' as int == c as int - 'A' as int
  {
    if EsMayuscula(c) then (c as int + 32) as char else c
  }

  /** `s.lower()` */
  function Minusculas(s: string): (r: string)
    ensures |r| == |s|
    ensures forall i :: 0 <= i < |s| ==> r[i] == Minuscula(s[i])
    ensures forall c :: c in r ==> !EsMayuscula(c)
  {
    seq(|s|, i requires 0 <= i < |s| => Minuscula(s[i]))
  }

  /** `s.split(sep)` for a one-character separator: the pieces between
      consecutive separators, so that two separators in a row give an empty
      piece and `''.split(' ')` is `['']`. */
  function Dividir(s: string, sep: char): (r: seq<string>)
    ensures |r| >= 1
    ensures forall t :: t in r ==> sep !in t
    decreases |s|
  {
    if sep !in s then [s]
    else
      var i := FirstIndex(s, sep);
      [s[..i]] + Dividir(s[i + 1..], sep)
  }

  /** `sep.join(partes)` */
  function Unir(partes: seq<string>, sep: char): string {
    if partes == [] then ""
    else if |partes| == 1 then partes[0]
    else partes[0] + [sep] + Unir(partes[1..], sep)
  }

  /** Splitting and joining again gives back the string. */
  lemma {:induction false} UnirDividir(s: string, sep: char)
    ensures Unir(Dividir(s, sep), sep) == s
    decreases |s|
  {
    if sep in s {
      var i := FirstIndex(s, sep);
      var rest := Dividir(s[i + 1..], sep);
      UnirDividir(s[i + 1..], sep);
      assert ([s[..i]] + rest)[1..] == rest;
      assert Unir(Dividir(s, sep), sep) == s[..i] + [sep] + Unir(rest, sep);
      assert s == s[..i] + [sep] + s[i + 1..];
    }
  }

  /** Joining pieces free of the separator and splitting again gives back
      the pieces. */
  lemma {:induction false} DividirUnir(partes: seq<string>, sep: char)
    requires partes != []
    requires forall t :: t in partes ==> sep !in t
    ensures Dividir(Unir(partes, sep), sep) == partes
  {
    if |partes| > 1 {
      var s := Unir(partes, sep);
      var p := partes[0];
      assert p in partes;
      assert s == p + [sep] + Unir(partes[1..], sep);
      assert s[|p|] == sep;
      assert FirstIndex(s, sep) == |p| by {
        forall j | 0 <= j < |p|
          ensures s[j] != sep
        {
          assert s[j] == p[j];
        }
      }
      assert s[..|p|] == p;
      assert s[|p| + 1..] == Unir(partes[1..], sep);
      DividirUnir(partes[1..], sep);
      assert partes == [p] + partes[1..];
    }
  }

  /** Every character of a piece is a character of the string. */
  lemma {:induction false} DividirCaracteres(s: string, sep: char)
    ensures forall t, c :: t in Dividir(s, sep) && c in t ==> c in s
    decreases |s|
  {
    if sep in s {
      var i := FirstIndex(s, sep);
      DividirCaracteres(s[i + 1..], sep);
      forall t, c | t in Dividir(s, sep) && c in t
        ensures c in s
      {
        if t == s[..i] {
          var k :| 0 <= k < i && s[..i][k] == c;
          assert s[k] == c;
        } else {
          assert t in Dividir(s[i + 1..], sep);
          var k :| 0 <= k < |s[i + 1..]| && s[i + 1..][k] == c;
          assert s[i + 1 + k] == c;
        }
      }
    }
  }

  /** Removes the leading characters for which `quitar` holds. */
  function QuitarIzquierda(s: string, quitar: char -> bool): (r: string)
    ensures |r| <= |s| && r == s[|s| - |r|..]
    ensures forall k :: 0 <= k < |s| - |r| ==> quitar(s[k])
    ensures r == [] || !quitar(r[0])
  {
    if s != [] && quitar(s[0]) then QuitarIzquierda(s[1..], quitar) else s
  }

  /** Removes the trailing characters for which `quitar` holds. */
  function QuitarDerecha(s: string, quitar: char -> bool): (r: string)
    ensures |r| <= |s| && r == s[..|r|]
    ensures forall k :: |r| <= k < |s| ==> quitar(s[k])
    ensures r == [] || !quitar(r[|r| - 1])
  {
    if s != [] && quitar(s[|s| - 1]) then QuitarDerecha(s[..|s| - 1], quitar) else s
  }

  /** `s.strip()` with `quitar` the whitespace test, `s.strip(chars)` with
      `quitar` the test `c in chars`: the longest middle slice that starts
      and ends with a character kept. */
  function Quitar(s: string, quitar: char -> bool): (r: string)
    ensures exists i, j :: (0 <= i <= j <= |s| && r == s[i..j] &&
                             (forall k :: 0 <= k < i ==> quitar(s[k])) &&
                             (forall k :: j <= k < |s| ==> quitar(s[k])))
    ensures r == [] || (!quitar(r[0]) && !quitar(r[|r| - 1]))
  {
    var l := QuitarIzquierda(s, quitar);
    var r := QuitarDerecha(l, quitar);
    var i := |s| - |l|;
    assert r == s[i..i + |r|];
    r
  }

  /** Stripping a string already stripped changes nothing. */
  lemma QuitarIdempotente(s: string, quitar: char -> bool)
    ensures Quitar(Quitar(s, quitar), quitar) == Quitar(s, quitar)
  {
    var r := Quitar(s, quitar);
    if r != [] {
      assert QuitarIzquierda(r, quitar) == r;
      assert QuitarDerecha(r, quitar) == r;
    }
  }

  /** The characters of a stripped string are characters of the string. */
  lemma QuitarCaracteres(s: string, quitar: char -> bool)
    ensures forall c :: c in Quitar(s, quitar) ==> c in s
  {
    var l := QuitarIzquierda(s, quitar);
    assert forall c :: c in l ==> c in s by {
      forall c | c in l
        ensures c in s
      {
        var k :| 0 <= k < |l| && l[k] == c;
        assert s[|s| - |l| + k] == c;
      }
    }
    assert forall c :: c in QuitarDerecha(l, quitar) ==> c in l by {
      forall c | c in QuitarDerecha(l, quitar)
        ensures c in l
      {
        var r := QuitarDerecha(l, quitar);
        var k :| 0 <= k < |r| && r[k] == c;
        assert l[k] == c;
      }
    }
  }

  /** `t.isalpha()`: non-empty and made of letters only. */
  predicate EsAlfabetica(t: string) {
    |t| > 0 && forall c :: c in t ==> EsLetra(c)
  }
}
