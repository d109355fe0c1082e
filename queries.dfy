/** The read-only query pipelines the pages share:
    `EnfHorarios.Where(...).OrderBy(Fecha).ThenBy(Hora)` and
    `EnfPersonas.Where(Tipo == "Estudiante").OrderBy(Nombre)`. Rows are
    scanned in primary-key order before they are sorted. */
module Queries {
  import opened Entities
  import opened Ordering

  /** Which dates a caller may see, relative to today. */
  datatype Ventana = SoloHoy | DesdeHoy | Todas

  predicate EnVentana(fecha: int, v: Ventana, hoy: int)
  {
    match v
    case SoloHoy => fecha == hoy
    case DesdeHoy => fecha >= hoy
    case Todas => true
  }

  /** The `Where` of a slot listing: available and inside the window. */
  predicate Visible(h: Horario, v: Ventana, hoy: int)
  {
    h.estado == HORARIO_DISPONIBLE && EnVentana(h.fecha, v, hoy)
  }

  /** The two-branch window of AgendarCitasAdmin and AgendarCitaProfesor:
      "Funcionario" and "Profesor" see today and later, everybody else
      (an unknown user included) only today. */
  function VentanaDosRamas(persona: Option<Persona>): (v: Ventana)
    ensures v != Todas
    ensures v == DesdeHoy <==>
              persona.Some? && (persona.value.tipo == TIPO_FUNCIONARIO || persona.value.tipo == TIPO_PROFESOR)
  {
    if persona.Some? && (persona.value.tipo == TIPO_FUNCIONARIO || persona.value.tipo == TIPO_PROFESOR)
    then DesdeHoy
    else SoloHoy
  }

  /** The caller is a "Funcionario" or a "Profesor" and so gets the
      two-branch window's today-and-later side. */
  predicate VeDesdeHoy(ps: seq<Persona>, usuario: string)
  {
    VentanaDosRamas(FirstByUsuario(ps, usuario)) == DesdeHoy
  }

  /** Ascending by date, then by time. */
  predicate OrdenadoPorFechaHora(r: seq<Horario>)
  {
    forall i, j :: 0 <= i < j < |r| ==>
      r[i].fecha < r[j].fecha || (r[i].fecha == r[j].fecha && r[i].hora <= r[j].hora)
  }

  /** No slot is listed twice. */
  predicate SinRepetidos(r: seq<Horario>)
  {
    forall i, j :: 0 <= i < j < |r| ==> r[i].id != r[j].id
  }

  function FechaHora(h: Horario): seq<int>
  {
    [h.fecha, h.hora]
  }

  predicate IdsCoinciden(m: map<int, Horario>)
  {
    forall k :: k in m ==> m[k].id == k
  }

  /** The rows under the keys `ks`, in that order, that pass the filter. */
  function Filas(m: map<int, Horario>, ks: seq<int>, v: Ventana, hoy: int): (r: seq<Horario>)
    requires IdsCoinciden(m)
    requires forall k :: k in ks ==> k in m
    requires forall i, j :: 0 <= i < j < |ks| ==> ks[i] < ks[j]
    ensures forall h :: h in r ==> h.id in ks && m[h.id] == h && Visible(h, v, hoy)
    ensures forall k :: k in ks && Visible(m[k], v, hoy) ==> m[k] in r
    ensures forall i, j :: 0 <= i < j < |r| ==> r[i].id < r[j].id
  {
    if |ks| == 0 then []
    else
      var rest := Filas(m, ks[1..], v, hoy);
      assert forall h :: h in rest ==> ks[0] < h.id by {
        forall h | h in rest ensures ks[0] < h.id {
          var i :| 0 <= i < |ks[1..]| && ks[1..][i] == h.id;
          assert ks[i + 1] == h.id;
        }
      }
      assert forall k :: k in ks ==> k == ks[0] || k in ks[1..];
      if Visible(m[ks[0]], v, hoy) then
        assert forall j :: 0 <= j < |rest| ==> rest[j] in rest;
        [m[ks[0]]] + rest
      else rest
  }

  /** A sequence whose ids strictly increase holds each row once. */
  lemma {:induction false} OnceEach(s: seq<Horario>, x: Horario)
    requires forall i, j :: 0 <= i < j < |s| ==> s[i].id < s[j].id
    ensures multiset(s)[x] <= 1
  {
    if |s| > 0 {
      assert s == [s[0]] + s[1..];
      OnceEach(s[1..], x);
      if s[0] == x {
        forall j | 0 <= j < |s[1..]| ensures s[1..][j] != x {
          assert s[1..][j] == s[j + 1];
        }
        assert x !in s[1..];
      }
    }
  }

  /** A row at two positions occurs at least twice. */
  lemma {:induction false} TwiceInMultiset(s: seq<Horario>, i: int, j: int)
    requires 0 <= i < j < |s| && s[i] == s[j]
    ensures multiset(s)[s[i]] >= 2
  {
    assert s == s[..j] + [s[j]] + s[j + 1..];
    assert s[i] in s[..j];
  }

  /** The slot listing of one window: exactly the visible slots, each once,
      ascending by (Fecha, Hora). */
  function Listado(m: map<int, Horario>, v: Ventana, hoy: int): (r: seq<Horario>)
    requires IdsCoinciden(m)
    ensures forall h :: h in r ==> h.id in m && m[h.id] == h && Visible(h, v, hoy)
    ensures forall k :: k in m && Visible(m[k], v, hoy) ==> m[k] in r
    ensures OrdenadoPorFechaHora(r)
    ensures SinRepetidos(r)
  {
    var ks := KeysAscending(m.Keys);
    var filas := Filas(m, ks, v, hoy);
    var r := SortBy(filas, FechaHora);
    SameElements(r, filas);
    SortedByFechaHora(r);
    assert forall i, j :: 0 <= i < |r| && 0 <= j < |r| && r[i].id == r[j].id ==> r[i] == r[j] by {
      forall i, j | 0 <= i < |r| && 0 <= j < |r| && r[i].id == r[j].id ensures r[i] == r[j] {
        assert r[i] in filas && r[j] in filas;
      }
    }
    PermutationOfDistinct(r, filas);
    assert forall k :: k in m && Visible(m[k], v, hoy) ==> m[k] in r by {
      forall k | k in m && Visible(m[k], v, hoy) ensures m[k] in r {
        assert k in ks;
        assert m[k] in filas;
      }
    }
    r
  }

  lemma SameElements(r: seq<Horario>, s: seq<Horario>)
    requires multiset(r) == multiset(s)
    ensures forall h :: h in r <==> h in s
  {
    forall h ensures h in r <==> h in s {
      assert h in r <==> h in multiset(r);
      assert h in s <==> h in multiset(s);
    }
  }

  lemma SortedByFechaHora(r: seq<Horario>)
    requires SortedBy(r, FechaHora)
    ensures OrdenadoPorFechaHora(r)
  {
    forall i, j | 0 <= i < j < |r|
      ensures r[i].fecha < r[j].fecha || (r[i].fecha == r[j].fecha && r[i].hora <= r[j].hora)
    {
      assert Lex(FechaHora(r[i]), FechaHora(r[j]));
      LexPair(r[i].fecha, r[i].hora, r[j].fecha, r[j].hora);
    }
  }

  /** A permutation of rows with strictly increasing ids lists no slot twice,
      provided equal ids mean equal rows. */
  lemma PermutationOfDistinct(r: seq<Horario>, s: seq<Horario>)
    requires multiset(r) == multiset(s)
    requires forall i, j :: 0 <= i < j < |s| ==> s[i].id < s[j].id
    requires forall i, j :: 0 <= i < |r| && 0 <= j < |r| && r[i].id == r[j].id ==> r[i] == r[j]
    ensures SinRepetidos(r)
  {
    forall i, j | 0 <= i < j < |r| ensures r[i].id != r[j].id {
      if r[i].id == r[j].id {
        TwiceInMultiset(r, i, j);
        OnceEach(s, r[i]);
        assert false;
      }
    }
  }

  function NombreClave(p: Persona): seq<int>
  {
    Codes(p.nombre)
  }

  /** `EnfPersonas.Where(p => p.Tipo == "Estudiante")`, in table order. */
  function Estudiantes(ps: seq<Persona>): (r: seq<Persona>)
    ensures forall p :: multiset(r)[p] == if p.tipo == TIPO_ESTUDIANTE then multiset(ps)[p] else 0
  {
    if |ps| == 0 then []
    else
      assert ps == [ps[0]] + ps[1..];
      (if ps[0].tipo == TIPO_ESTUDIANTE then [ps[0]] else []) + Estudiantes(ps[1..])
  }

  /** The student list of the emergency forms: every student, as often as
      stored, and nobody else, ordered by name. */
  function EstudiantesPorNombre(ps: seq<Persona>): (r: seq<Persona>)
    ensures forall p :: multiset(r)[p] == if p.tipo == TIPO_ESTUDIANTE then multiset(ps)[p] else 0
    ensures forall p :: p in r <==> p in ps && p.tipo == TIPO_ESTUDIANTE
    ensures forall i, j :: 0 <= i < j < |r| ==> Lex(Codes(r[i].nombre), Codes(r[j].nombre))
  {
    var r := SortBy(Estudiantes(ps), NombreClave);
    assert forall p :: p in r <==> p in multiset(r);
    assert forall i, j :: 0 <= i < j < |r| ==> Lex(NombreClave(r[i]), NombreClave(r[j]));
    r
  }
}
