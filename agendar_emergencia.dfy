/** Pages/AgendarEmergencia.cshtml.cs: the student list and an emergency
    booking against the fixed slot 1, created by the fixed user "profe1". */
module AgendarEmergencia {
  import opened Entities
  import opened Queries
  import opened Booking
  import opened Context
  import opened Ordering

  /** The slot every booking of this page references. */
  const HORARIO_FIJO := 1

  /** The creator written on every booking of this page. */
  const USUARIO_CREACION := "profe1"

  /** OnGetAsync's Estudiantes: every stored student, as often as stored,
      nobody else, ordered by name. */
  function Estudiantes(t: Tables): (r: seq<Persona>)
    ensures forall p :: p in r <==> p in t.personas && p.tipo == TIPO_ESTUDIANTE
    ensures forall p :: multiset(r)[p] == if p.tipo == TIPO_ESTUDIANTE then multiset(t.personas)[p] else 0
    ensures forall i, j :: 0 <= i < j < |r| ==> Lex(Codes(r[i].nombre), Codes(r[j].nombre))
  {
    EstudiantesPorNombre(t.personas)
  }

  /** OnPostAsync as a step: an id matching no person fails with nothing
      written; any stored person, whatever its Tipo, gets exactly one
      "Creada" booking on slot 1 with an arrival time, and the slot table is
      not touched. */
  function Registrar(t: Tables, idEstudiante: int, ahora: Instante): (s: Step)
    requires Valid(t)
    ensures Valid(s.after)
    ensures s.outcome.Ok? <==> FindPersona(t.personas, idEstudiante).Some?
    ensures s.outcome.Fail? ==> s == Step(Fail(EstudianteNoEncontrado), t)
    ensures s.after.personas == t.personas && s.after.horarios == t.horarios &&
            s.after.nextHorarioId == t.nextHorarioId
    ensures s.outcome.Ok? ==>
              s.after.citas == t.citas + [Cita(idEstudiante, HORARIO_FIJO, CITA_CREADA, Some(ahora.hora), USUARIO_CREACION)]
  {
    match FindPersona(t.personas, idEstudiante)
    case None => Step(Fail(EstudianteNoEncontrado), t)
    case Some(estudiante) =>
      Step(Ok, t.(citas := t.citas + [Cita(estudiante.id, HORARIO_FIJO, CITA_CREADA, Some(ahora.hora), USUARIO_CREACION)]))
  }

  method OnPostAsync(db: EnfermeriaContext, idEstudianteSeleccionado: int, ahora: Instante) returns (r: Outcome)
    requires db.Valid()
    modifies db
    ensures db.Valid()
    ensures Step(r, db.Snapshot()) == Registrar(old(db.Snapshot()), idEstudianteSeleccionado, ahora)
  {
    var estudiante := FindPersona(db.personas, idEstudianteSeleccionado);
    if estudiante.None? {
      return Fail(EstudianteNoEncontrado);
    }
    db.SaveCita(Cita(estudiante.value.id, HORARIO_FIJO, CITA_CREADA, Some(ahora.hora), USUARIO_CREACION));
    r := Ok;
  }

  /** Every successful registration adds one more booking on slot 1 and
      none on any other slot, so slot 1 collects bookings without bound. */
  lemma RegistrarCuentaEnHorarioFijo(t: Tables, idEstudiante: int, ahora: Instante, k: int)
    requires Valid(t)
    ensures var s := Registrar(t, idEstudiante, ahora);
            Referencias(s.after.citas, k) ==
              Referencias(t.citas, k) + (if s.outcome.Ok? && k == HORARIO_FIJO then 1 else 0)
  {
    var s := Registrar(t, idEstudiante, ahora);
    if s.outcome.Ok? {
      ReferenciasAppend(t.citas, Cita(idEstudiante, HORARIO_FIJO, CITA_CREADA, Some(ahora.hora), USUARIO_CREACION), k);
    }
  }

  /** The page books slot 1 whatever its status: from an exclusive store in
      which slot 1 is "Disponible", a booking leaves an available slot that
      a booking references. */
  lemma RegistrarRompeExclusivo()
    ensures var t := Tables([Persona(7, "est1", "Ana", TIPO_ESTUDIANTE)],
                            map[1 := Horario(1, 10, 540, HORARIO_DISPONIBLE, None, None, None, None)],
                            [], 2);
            var s := Registrar(t, 7, Instante(10, 600));
            Valid(t) && Exclusivo(t) && s.outcome.Ok? && !Exclusivo(s.after)
  {
    var t := Tables([Persona(7, "est1", "Ana", TIPO_ESTUDIANTE)],
                    map[1 := Horario(1, 10, 540, HORARIO_DISPONIBLE, None, None, None, None)],
                    [], 2);
    var s := Registrar(t, 7, Instante(10, 600));
    assert Referencias(s.after.citas, 1) == 1 by {
      assert s.after.citas[..0] == [];
    }
  }

  /** A registration writes no slot, so it keeps at most one emergency slot
      per date. */
  lemma RegistrarPreservaUnaEmergencia(t: Tables, idEstudiante: int, ahora: Instante)
    requires Valid(t) && UnaEmergenciaPorFecha(t)
    ensures UnaEmergenciaPorFecha(Registrar(t, idEstudiante, ahora).after)
  {
    assert Registrar(t, idEstudiante, ahora).after.horarios == t.horarios;
  }
}
