/** The three tables of the nursing-appointment database (EnfPersonas,
    EnfHorarios, EnfCitas), their rows, and the lookups the page handlers run
    against them. Dates are day numbers and times of day are minute counts. */
module Entities {

  datatype Option<+T> = None | Some(value: T)

  /** A time of day at minute resolution, 00:00 to 23:59. */
  type Minuto = m: int | 0 <= m < 1440

  /** One reading of the clock: the day and the time of day. */
  datatype Instante = Instante(fecha: int, hora: Minuto)

  /** A row of EnfPersonas. `tipo` holds the role as stored. */
  datatype Persona = Persona(id: int, usuario: string, nombre: string, tipo: string)

  /** A row of EnfHorarios, with its creation and modification audit columns. */
  datatype Horario = Horario(
    id: int,
    fecha: int,
    hora: Minuto,
    estado: string,
    usuarioCreacion: Option<string>,
    fechaCreacion: Option<Instante>,
    usuarioModificacion: Option<string>,
    fechaModificacion: Option<Instante>)

  /** A row of EnfCitas; its own identity column is not modelled. */
  datatype Cita = Cita(
    idPersona: int,
    idHorario: int,
    estado: string,
    horaLlegada: Option<Minuto>,
    usuarioCreacion: string)

  const TIPO_ESTUDIANTE := "Estudiante"
  const TIPO_FUNCIONARIO := "Funcionario"
  const TIPO_PROFESOR := "Profesor"

  const HORARIO_DISPONIBLE := "Disponible"
  const HORARIO_RESERVADO := "Reservado"
  const HORARIO_EMERGENCIA := "Emergencia"

  const CITA_CREADA := "Creada"
  const CITA_EMERGENCIA := "Emergencia"
  const CITA_CANCELADA := "Cancelada"

  /** The whole store. `nextHorarioId` is the identity value the database
      gives the next slot it inserts. */
  datatype Tables = Tables(
    personas: seq<Persona>,
    horarios: map<int, Horario>,
    citas: seq<Cita>,
    nextHorarioId: int)

  /** Primary keys: person ids are unique, every slot is stored under its own
      id, and the identity counter is past every slot id in use. */
  predicate Valid(t: Tables)
  {
    (forall i, j :: 0 <= i < j < |t.personas| ==> t.personas[i].id != t.personas[j].id) &&
    (forall k :: k in t.horarios ==> t.horarios[k].id == k && k < t.nextHorarioId)
  }

  /** `FirstOrDefaultAsync(p => p.Usuario == usuario)`: the first person with that user name. */
  function FirstByUsuario(ps: seq<Persona>, usuario: string): (r: Option<Persona>)
    ensures r.Some? ==> r.value in ps && r.value.usuario == usuario
    ensures r.None? <==> forall p :: p in ps ==> p.usuario != usuario
    ensures r.Some? ==> exists i :: 0 <= i < |ps| && ps[i] == r.value &&
                          forall j :: 0 <= j < i ==> ps[j].usuario != usuario
  {
    if |ps| == 0 then None
    else if ps[0].usuario == usuario then Some(ps[0])
    else
      var r := FirstByUsuario(ps[1..], usuario);
      assert forall p :: p in ps[1..] ==> p in ps;
      assert r.Some? ==> exists i :: 0 <= i < |ps| && ps[i] == r.value &&
                          forall j :: 0 <= j < i ==> ps[j].usuario != usuario by {
        if r.Some? {
          var i :| 0 <= i < |ps[1..]| && ps[1..][i] == r.value &&
                   forall j :: 0 <= j < i ==> ps[1..][j].usuario != usuario;
          assert ps[i + 1] == r.value;
          assert forall j :: 0 <= j < i + 1 ==> ps[j].usuario != usuario by {
            forall j | 0 <= j < i + 1 ensures ps[j].usuario != usuario {
              if j > 0 { assert ps[j] == ps[1..][j - 1]; }
            }
          }
        }
      }
      r
  }

  /** `FindAsync(id)` on EnfPersonas: the person with that primary key. */
  function FindPersona(ps: seq<Persona>, id: int): (r: Option<Persona>)
    ensures r.Some? ==> r.value in ps && r.value.id == id
    ensures r.None? <==> forall p :: p in ps ==> p.id != id
  {
    if |ps| == 0 then None
    else if ps[0].id == id then Some(ps[0])
    else
      assert forall p :: p in ps[1..] ==> p in ps;
      FindPersona(ps[1..], id)
  }

  /** Under unique ids, looking a stored person up by id gives that person back. */
  lemma {:induction false} FindPersonaOf(ps: seq<Persona>, p: Persona)
    requires forall i, j :: 0 <= i < j < |ps| ==> ps[i].id != ps[j].id
    requires p in ps
    ensures FindPersona(ps, p.id) == Some(p)
  {
    if ps[0] != p {
      assert ps[0].id != p.id by {
        var j :| 0 <= j < |ps| && ps[j] == p;
      }
      assert p in ps[1..];
      FindPersonaOf(ps[1..], p);
    }
  }

  /** The person with that id exists and is a student. */
  predicate EsEstudiante(ps: seq<Persona>, id: int)
  {
    var p := FindPersona(ps, id);
    p.Some? && p.value.tipo == TIPO_ESTUDIANTE
  }

  /** The first person with that user name exists and has that Tipo. */
  predicate TieneTipo(ps: seq<Persona>, usuario: string, tipo: string)
  {
    var p := FirstByUsuario(ps, usuario);
    p.Some? && p.value.tipo == tipo
  }

  /** `persona?.Tipo == "Profesor"`: the caller exists and is a "Profesor". */
  predicate EsProfesor(ps: seq<Persona>, usuario: string)
  {
    TieneTipo(ps, usuario, TIPO_PROFESOR)
  }
}
