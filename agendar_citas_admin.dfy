/** Pages/AgendarCitasAdmin.cshtml.cs: the slot listing with two windows,
    the reservation without any per-day limit, and the emergency booking
    whose status is "Emergencia". */
module AgendarCitasAdmin {
  import opened Entities
  import opened Queries
  import opened Booking
  import opened Context

  /** OnGetAsync (and LoadData, LoadDataAsync, the prelude of OnPostAsync):
      the stored "Disponible" slots dated today or later for a "Funcionario"
      or "Profesor" and dated today for anybody else, an unknown user
      included; all of them, each once, ascending by date and time. */
  function HorariosDisponibles(t: Tables, usuario: string, hoy: int): (r: seq<Horario>)
    requires Valid(t)
    ensures forall h :: h in r ==> h.estado == HORARIO_DISPONIBLE && h.id in t.horarios && t.horarios[h.id] == h
    ensures VeDesdeHoy(t.personas, usuario) ==> forall h :: h in r ==> h.fecha >= hoy
    ensures !VeDesdeHoy(t.personas, usuario) ==> forall h :: h in r ==> h.fecha == hoy
    ensures VeDesdeHoy(t.personas, usuario) ==>
              forall k :: (k in t.horarios && t.horarios[k].estado == HORARIO_DISPONIBLE &&
                           t.horarios[k].fecha >= hoy) ==> t.horarios[k] in r
    ensures !VeDesdeHoy(t.personas, usuario) ==>
              forall k :: (k in t.horarios && t.horarios[k].estado == HORARIO_DISPONIBLE &&
                           t.horarios[k].fecha == hoy) ==> t.horarios[k] in r
    ensures OrdenadoPorFechaHora(r) && SinRepetidos(r)
  {
    Listado(t.horarios, VentanaDosRamas(FirstByUsuario(t.personas, usuario)), hoy)
  }

  /** OnPostAsync: the slot listing it loads first has no effect on the
      tables; the reservation is the shared one, without a per-day limit. */
  method OnPostAsync(db: EnfermeriaContext, usuario: string, horarioSeleccionadoId: int, ahora: Instante)
    returns (r: Outcome)
    requires db.Valid()
    modifies db
    ensures db.Valid()
    ensures Step(r, db.Snapshot()) == ReservaBasica(old(db.Snapshot()), usuario, horarioSeleccionadoId, ahora)
  {
    var persona := FirstByUsuario(db.personas, usuario);
    if persona.None? {
      return Fail(UsuarioNoValido);
    }
    if horarioSeleccionadoId !in db.horarios || db.horarios[horarioSeleccionadoId].estado != HORARIO_DISPONIBLE {
      return Fail(HorarioNoDisponible);
    }
    var horario := db.horarios[horarioSeleccionadoId];
    var nuevaCita := Cita(persona.value.id, horario.id, CITA_CREADA, None, usuario);
    db.SaveCitaYHorario(nuevaCita, Reservado(horario, usuario, ahora));
    r := Ok;
  }

  /** OnPostAgendarEmergenciaAsync as a step: a malformed payload, a caller
      who is not a "Profesor" and a target who is not a stored "Estudiante"
      fail, in that order, with nothing written; otherwise today's emergency
      slot is found or created and a booking with status "Emergencia" is
      added for the student. */
  function AgendarEmergencia(t: Tables, usuario: string, datos: Option<int>,
                             hoy: int, ahora: Instante, llegada: Minuto): (s: Step)
    requires Valid(t)
    ensures Valid(s.after)
    ensures s.outcome.Fail? ==> s.after == t
    ensures datos.None? ==> s.outcome == Fail(DatosInvalidos)
    ensures datos.Some? && !EsProfesor(t.personas, usuario) ==> s.outcome == Fail(SoloProfesores)
    ensures datos.Some? && EsProfesor(t.personas, usuario) && !EsEstudiante(t.personas, datos.value) ==>
              s.outcome == Fail(EstudianteNoEncontrado)
    ensures s.outcome.Ok? <==>
              datos.Some? && EsProfesor(t.personas, usuario) && EsEstudiante(t.personas, datos.value)
    ensures s.outcome.Ok? ==> EmergenciaHecha(t, s.after, datos.value, CITA_EMERGENCIA, usuario, hoy, ahora, llegada)
  {
    if datos.None? then Step(Fail(DatosInvalidos), t)
    else if !EsProfesor(t.personas, usuario) then Step(Fail(SoloProfesores), t)
    else if !EsEstudiante(t.personas, datos.value) then Step(Fail(EstudianteNoEncontrado), t)
    else Step(Ok, ConCitaEmergencia(t, datos.value, CITA_EMERGENCIA, usuario, hoy, ahora, llegada))
  }

  /** OnPostAgendarEmergenciaAsync: `datos` is the deserialized request body,
      None when it does not deserialize. Two commits: the new slot, if one
      is needed, then the booking. `ahora` is the clock reading stored as a
      new slot's creation time and `llegada` the later one stored as the
      arrival time. */
  method OnPostAgendarEmergenciaAsync(db: EnfermeriaContext, usuario: string, datos: Option<int>,
                                      hoy: int, ahora: Instante, llegada: Minuto)
    returns (r: Outcome)
    requires db.Valid()
    modifies db
    ensures db.Valid()
    ensures Step(r, db.Snapshot()) == AgendarEmergencia(old(db.Snapshot()), usuario, datos, hoy, ahora, llegada)
  {
    if datos.None? {
      return Fail(DatosInvalidos);
    }
    var persona := FirstByUsuario(db.personas, usuario);
    if persona.None? || persona.value.tipo != TIPO_PROFESOR {
      return Fail(SoloProfesores);
    }
    var estudiante := FindPersona(db.personas, datos.value);
    if estudiante.None? || estudiante.value.tipo != TIPO_ESTUDIANTE {
      return Fail(EstudianteNoEncontrado);
    }
    var horarioEmergencia := HorarioEmergencia(db.horarios, hoy);
    var idHorario: int;
    if horarioEmergencia.None? {
      idHorario := db.SaveHorario(hoy, 0, HORARIO_EMERGENCIA, usuario, ahora);
    } else {
      idHorario := horarioEmergencia.value;
    }
    db.SaveCita(Cita(estudiante.value.id, idHorario, CITA_EMERGENCIA, Some(llegada), usuario));
    r := Ok;
  }

  /** Two emergency bookings on one day by the same caller: the second one
      succeeds too, adds no slot, and both reference the same slot; starting
      from a day without one, exactly one emergency slot results. */
  lemma DosEmergenciasUnHorario(t: Tables, usuario: string, id1: int, id2: int,
                                hoy: int, a1: Instante, a2: Instante, l1: Minuto, l2: Minuto)
    requires Valid(t)
    requires AgendarEmergencia(t, usuario, Some(id1), hoy, a1, l1).outcome.Ok?
    requires EsEstudiante(t.personas, id2)
    ensures var s1 := AgendarEmergencia(t, usuario, Some(id1), hoy, a1, l1);
            var s2 := AgendarEmergencia(s1.after, usuario, Some(id2), hoy, a2, l2);
            s2.outcome.Ok? &&
            s2.after.horarios == s1.after.horarios &&
            s2.after.citas[|s1.after.citas|].idHorario == s1.after.citas[|t.citas|].idHorario &&
            (EmergenciasDe(t.horarios, hoy) == {} ==> |EmergenciasDe(s2.after.horarios, hoy)| == 1)
  {
    var s1 := AgendarEmergencia(t, usuario, Some(id1), hoy, a1, l1);
    var s2 := AgendarEmergencia(s1.after, usuario, Some(id2), hoy, a2, l2);
    EmergenciaIdempotente(t, s1.after, s2.after, id1, id2, CITA_EMERGENCIA, usuario, usuario, hoy, a1, a2, l1, l2);
  }

  /** The reservation of this page keeps slot exclusivity. */
  lemma ReservarPreservaExclusivo(t: Tables, usuario: string, k: int, ahora: Instante)
    requires Valid(t) && Exclusivo(t)
    ensures Exclusivo(ReservaBasica(t, usuario, k, ahora).after)
  {
    var s := ReservaBasica(t, usuario, k, ahora);
    if s.outcome.Ok? {
      ReservaHechaPreservaExclusivo(t, s.after, FirstByUsuario(t.personas, usuario).value.id, k, usuario, ahora);
    }
  }

  /** The emergency booking of this page keeps slot exclusivity. */
  lemma EmergenciaPreservaExclusivo(t: Tables, usuario: string, datos: Option<int>,
                                    hoy: int, ahora: Instante, llegada: Minuto)
    requires Valid(t) && Exclusivo(t)
    ensures Exclusivo(AgendarEmergencia(t, usuario, datos, hoy, ahora, llegada).after)
  {
    var s := AgendarEmergencia(t, usuario, datos, hoy, ahora, llegada);
    if s.outcome.Ok? {
      EmergenciaHechaPreservaExclusivo(t, s.after, datos.value, CITA_EMERGENCIA, usuario, hoy, ahora, llegada);
    }
  }

  /** This page applies no per-day limit: a student who already holds a
      booking on day 10 gets a second one on another slot of day 10. */
  lemma ReservarSinLimiteDiario()
    ensures var t := Tables([Persona(7, "est1", "Ana", TIPO_ESTUDIANTE)],
                            map[1 := Horario(1, 10, 540, HORARIO_RESERVADO, None, None, None, None),
                                2 := Horario(2, 10, 600, HORARIO_DISPONIBLE, None, None, None, None)],
                            [Cita(7, 1, CITA_CREADA, None, "est1")], 3);
            var s := ReservaBasica(t, "est1", 2, Instante(9, 480));
            Valid(t) && UnaPorDia(t) && s.outcome.Ok? && !UnaPorDia(s.after)
  {
    var t := Tables([Persona(7, "est1", "Ana", TIPO_ESTUDIANTE)],
                    map[1 := Horario(1, 10, 540, HORARIO_RESERVADO, None, None, None, None),
                        2 := Horario(2, 10, 600, HORARIO_DISPONIBLE, None, None, None, None)],
                    [Cita(7, 1, CITA_CREADA, None, "est1")], 3);
    var s := ReservaBasica(t, "est1", 2, Instante(9, 480));
    assert FindPersona(t.personas, 7) == Some(t.personas[0]);
    assert Choque(s.after, s.after.citas[0], s.after.citas[1]);
  }

  /** The reservation of this page keeps at most one emergency slot per date. */
  lemma ReservarPreservaUnaEmergencia(t: Tables, usuario: string, k: int, ahora: Instante)
    requires Valid(t) && UnaEmergenciaPorFecha(t)
    ensures UnaEmergenciaPorFecha(ReservaBasica(t, usuario, k, ahora).after)
  {
    var s := ReservaBasica(t, usuario, k, ahora);
    if s.outcome.Ok? {
      ReservaHechaPreservaUnaEmergencia(t, s.after, FirstByUsuario(t.personas, usuario).value.id, k, usuario, ahora);
    }
  }

  /** The emergency booking of this page keeps at most one emergency slot
      per date. */
  lemma EmergenciaPreservaUnaEmergencia(t: Tables, usuario: string, datos: Option<int>,
                                        hoy: int, ahora: Instante, llegada: Minuto)
    requires Valid(t) && UnaEmergenciaPorFecha(t)
    ensures UnaEmergenciaPorFecha(AgendarEmergencia(t, usuario, datos, hoy, ahora, llegada).after)
  {
    var s := AgendarEmergencia(t, usuario, datos, hoy, ahora, llegada);
    if s.outcome.Ok? {
      EmergenciaHechaPreservaUnaEmergencia(t, s.after, datos.value, CITA_EMERGENCIA, usuario, hoy, ahora, llegada);
    }
  }
}
