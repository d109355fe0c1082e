/** Pages/AgendarCita.cshtml.cs: the slot listing with three windows, the
    reservation with the one-booking-per-day rule for students, and the
    emergency booking whose status is "Creada". */
module AgendarCita {
  import opened Entities
  import opened Queries
  import opened Booking
  import opened Context
  import opened Ordering

  /** OnGetAsync's window for a known caller: "Estudiante" today only,
      "Funcionario" and "Profesor" today and later, any other Tipo every date. */
  function VentanaDe(p: Persona): (v: Ventana)
    ensures v == SoloHoy <==> p.tipo == TIPO_ESTUDIANTE
    ensures v == DesdeHoy <==> p.tipo == TIPO_FUNCIONARIO || p.tipo == TIPO_PROFESOR
    ensures v == Todas <==>
              p.tipo != TIPO_ESTUDIANTE && p.tipo != TIPO_FUNCIONARIO && p.tipo != TIPO_PROFESOR
  {
    if p.tipo == TIPO_ESTUDIANTE then SoloHoy
    else if p.tipo == TIPO_FUNCIONARIO || p.tipo == TIPO_PROFESOR then DesdeHoy
    else Todas
  }

  /** The caller exists and its Tipo is none of the three roles. */
  predicate TipoDesconocido(ps: seq<Persona>, usuario: string)
  {
    var p := FirstByUsuario(ps, usuario);
    p.Some? && p.value.tipo != TIPO_ESTUDIANTE && p.value.tipo != TIPO_FUNCIONARIO && p.value.tipo != TIPO_PROFESOR
  }

  /** OnGetAsync's HorariosDisponibles: nothing for an unknown user; for a
      known one the stored "Disponible" slots of its window, all of them,
      each once, ascending by date and time. */
  function HorariosDisponibles(t: Tables, usuario: string, hoy: int): (r: seq<Horario>)
    requires Valid(t)
    ensures FirstByUsuario(t.personas, usuario).None? ==> r == []
    ensures forall h :: h in r ==> h.estado == HORARIO_DISPONIBLE && h.id in t.horarios && t.horarios[h.id] == h
    ensures TieneTipo(t.personas, usuario, TIPO_ESTUDIANTE) ==> forall h :: h in r ==> h.fecha == hoy
    ensures TieneTipo(t.personas, usuario, TIPO_FUNCIONARIO) || TieneTipo(t.personas, usuario, TIPO_PROFESOR) ==>
              forall h :: h in r ==> h.fecha >= hoy
    ensures TieneTipo(t.personas, usuario, TIPO_ESTUDIANTE) ==>
              forall k :: (k in t.horarios && t.horarios[k].estado == HORARIO_DISPONIBLE &&
                           t.horarios[k].fecha == hoy) ==> t.horarios[k] in r
    ensures TieneTipo(t.personas, usuario, TIPO_FUNCIONARIO) || TieneTipo(t.personas, usuario, TIPO_PROFESOR) ==>
              forall k :: (k in t.horarios && t.horarios[k].estado == HORARIO_DISPONIBLE &&
                           t.horarios[k].fecha >= hoy) ==> t.horarios[k] in r
    ensures TipoDesconocido(t.personas, usuario) ==>
              forall k :: (k in t.horarios && t.horarios[k].estado == HORARIO_DISPONIBLE) ==> t.horarios[k] in r
    ensures OrdenadoPorFechaHora(r) && SinRepetidos(r)
  {
    match FirstByUsuario(t.personas, usuario)
    case None => []
    case Some(p) => Listado(t.horarios, VentanaDe(p), hoy)
  }

  /** OnGetAsync's Estudiantes: loaded only when the caller is a "Profesor",
      and then every stored student, as often as stored, ordered by name. */
  function Estudiantes(t: Tables, usuario: string): (r: seq<Persona>)
    ensures !TieneTipo(t.personas, usuario, TIPO_PROFESOR) ==> r == []
    ensures TieneTipo(t.personas, usuario, TIPO_PROFESOR) ==>
              forall p :: p in r <==> p in t.personas && p.tipo == TIPO_ESTUDIANTE
    ensures TieneTipo(t.personas, usuario, TIPO_PROFESOR) ==>
              forall p :: multiset(r)[p] == if p.tipo == TIPO_ESTUDIANTE then multiset(t.personas)[p] else 0
    ensures TieneTipo(t.personas, usuario, TIPO_PROFESOR) ==>
              forall i, j :: 0 <= i < j < |r| ==> Lex(Codes(r[i].nombre), Codes(r[j].nombre))
  {
    if TieneTipo(t.personas, usuario, TIPO_PROFESOR) then EstudiantesPorNombre(t.personas) else []
  }

  /** OnPostAsync as a step: an unknown user, a missing slot or one that is
      not "Disponible", and a student who already has a booking not
      "Cancelada" on a slot of the same date fail, in that order, with
      nothing written; otherwise one "Creada" booking is added and the slot
      becomes "Reservado". */
  function Reservar(t: Tables, usuario: string, k: int, ahora: Instante): (s: Step)
    requires Valid(t)
    ensures Valid(s.after)
    ensures s.outcome.Fail? ==> s.after == t
    ensures FirstByUsuario(t.personas, usuario).None? ==> s.outcome == Fail(UsuarioNoValido)
    ensures FirstByUsuario(t.personas, usuario).Some? && !Reservable(t, k) ==>
              s.outcome == Fail(HorarioNoDisponible)
    ensures TieneTipo(t.personas, usuario, TIPO_ESTUDIANTE) && Reservable(t, k) &&
            YaTieneCita(t, FirstByUsuario(t.personas, usuario).value.id, t.horarios[k].fecha) ==>
              s.outcome == Fail(YaTieneCitaEseDia)
    ensures s.outcome.Ok? <==>
              FirstByUsuario(t.personas, usuario).Some? && Reservable(t, k) &&
              !(TieneTipo(t.personas, usuario, TIPO_ESTUDIANTE) &&
                YaTieneCita(t, FirstByUsuario(t.personas, usuario).value.id, t.horarios[k].fecha))
    ensures s.outcome.Ok? ==>
              ReservaHecha(t, s.after, FirstByUsuario(t.personas, usuario).value.id, k, usuario, ahora)
  {
    var persona := FirstByUsuario(t.personas, usuario);
    if persona.None? then Step(Fail(UsuarioNoValido), t)
    else if !Reservable(t, k) then Step(Fail(HorarioNoDisponible), t)
    else if persona.value.tipo == TIPO_ESTUDIANTE && YaTieneCita(t, persona.value.id, t.horarios[k].fecha)
    then Step(Fail(YaTieneCitaEseDia), t)
    else Step(Ok, ConReserva(t, persona.value.id, k, usuario, ahora))
  }

  /** OnPostAsync: one commit of booking and slot together. */
  method OnPostAsync(db: EnfermeriaContext, usuario: string, horarioSeleccionadoId: int, ahora: Instante)
    returns (r: Outcome)
    requires db.Valid()
    modifies db
    ensures db.Valid()
    ensures Step(r, db.Snapshot()) == Reservar(old(db.Snapshot()), usuario, horarioSeleccionadoId, ahora)
  {
    var persona := FirstByUsuario(db.personas, usuario);
    if persona.None? {
      return Fail(UsuarioNoValido);
    }
    if horarioSeleccionadoId !in db.horarios || db.horarios[horarioSeleccionadoId].estado != HORARIO_DISPONIBLE {
      return Fail(HorarioNoDisponible);
    }
    var horario := db.horarios[horarioSeleccionadoId];
    if persona.value.tipo == TIPO_ESTUDIANTE {
      if YaTieneCita(db.Snapshot(), persona.value.id, horario.fecha) {
        return Fail(YaTieneCitaEseDia);
      }
    }
    var nuevaCita := Cita(persona.value.id, horario.id, CITA_CREADA, None, usuario);
    db.SaveCitaYHorario(nuevaCita, Reservado(horario, usuario, ahora));
    r := Ok;
  }

  /** OnPostAgendarEmergenciaAsync as a step: an empty user name, a
      malformed payload, a caller who is not a "Profesor" and a target who is
      not a stored "Estudiante" fail, in that order, with nothing written;
      otherwise today's emergency slot is found or created and a booking with
      status "Creada" is added for the student. No per-day limit applies. */
  function AgendarEmergencia(t: Tables, usuario: string, datos: Option<int>,
                             hoy: int, ahora: Instante, llegada: Minuto): (s: Step)
    requires Valid(t)
    ensures Valid(s.after)
    ensures s.outcome.Fail? ==> s.after == t
    ensures usuario == "" ==> s.outcome == Fail(UsuarioNoEspecificado)
    ensures usuario != "" && datos.None? ==> s.outcome == Fail(DatosInvalidos)
    ensures usuario != "" && datos.Some? && !EsProfesor(t.personas, usuario) ==> s.outcome == Fail(SoloProfesores)
    ensures usuario != "" && datos.Some? && EsProfesor(t.personas, usuario) && !EsEstudiante(t.personas, datos.value) ==>
              s.outcome == Fail(EstudianteNoEncontrado)
    ensures s.outcome.Ok? <==>
              usuario != "" && datos.Some? && EsProfesor(t.personas, usuario) && EsEstudiante(t.personas, datos.value)
    ensures s.outcome.Ok? ==> EmergenciaHecha(t, s.after, datos.value, CITA_CREADA, usuario, hoy, ahora, llegada)
  {
    if usuario == "" then Step(Fail(UsuarioNoEspecificado), t)
    else if datos.None? then Step(Fail(DatosInvalidos), t)
    else if !EsProfesor(t.personas, usuario) then Step(Fail(SoloProfesores), t)
    else if !EsEstudiante(t.personas, datos.value) then Step(Fail(EstudianteNoEncontrado), t)
    else Step(Ok, ConCitaEmergencia(t, datos.value, CITA_CREADA, usuario, hoy, ahora, llegada))
  }

  /** OnPostAgendarEmergenciaAsync: `usuario` is the query parameter (empty
      when absent) and `datos` the deserialized body (None when it does not
      deserialize). `ahora` is the clock reading stored as a new slot's
      creation time and `llegada` the later one stored as the arrival time. */
  method OnPostAgendarEmergenciaAsync(db: EnfermeriaContext, usuario: string, datos: Option<int>,
                                      hoy: int, ahora: Instante, llegada: Minuto)
    returns (r: Outcome)
    requires db.Valid()
    modifies db
    ensures db.Valid()
    ensures Step(r, db.Snapshot()) == AgendarEmergencia(old(db.Snapshot()), usuario, datos, hoy, ahora, llegada)
  {
    if usuario == "" {
      return Fail(UsuarioNoEspecificado);
    }
    if datos.None? {
      return Fail(DatosInvalidos);
    }
    var persona := FirstByUsuario(db.personas, usuario);
    if persona.None? || persona.value.tipo != TIPO_PROFESOR {
      return Fail(SoloProfesores);
    }
    var estudiante := FindPersona(db.personas, datos.value);
    if estudiante.None? || estudiante.value.tipo != TIPO_ESTUDIANTE {
      return Fail(EstudianteNoEncontrado);
    }
    var horarioEmergencia := HorarioEmergencia(db.horarios, hoy);
    var idHorario: int;
    if horarioEmergencia.None? {
      idHorario := db.SaveHorario(hoy, 0, HORARIO_EMERGENCIA, usuario, ahora);
    } else {
      idHorario := horarioEmergencia.value;
    }
    db.SaveCita(Cita(estudiante.value.id, idHorario, CITA_CREADA, Some(llegada), usuario));
    r := Ok;
  }

  /** OnPostAsync keeps "every student has at most one booking not
      'Cancelada' per slot date". */
  lemma ReservarPreservaUnaPorDia(t: Tables, usuario: string, k: int, ahora: Instante)
    requires Valid(t) && UnaPorDia(t)
    ensures UnaPorDia(Reservar(t, usuario, k, ahora).after)
  {
    var s := Reservar(t, usuario, k, ahora);
    if s.outcome.Ok? {
      var p := FirstByUsuario(t.personas, usuario).value;
      var t' := s.after;
      var c := Cita(p.id, k, CITA_CREADA, None, usuario);
      var n := |t.citas|;
      assert t'.citas == t.citas + [c];
      FindPersonaOf(t.personas, p);
      // Only the status of slot k changed, so every booking keeps its date.
      assert forall x :: x in t.horarios <==> x in t'.horarios;
      assert forall x :: x in t.horarios ==> t'.horarios[x].fecha == t.horarios[x].fecha;
      forall i, j | 0 <= i < |t'.citas| && 0 <= j < |t'.citas| && i != j
        ensures !Choque(t', t'.citas[i], t'.citas[j])
      {
        if i < n && j < n {
          assert !Choque(t, t.citas[i], t.citas[j]);
        } else if i == n {
          if p.tipo == TIPO_ESTUDIANTE {
            assert !EnElDia(t, t.citas[j], p.id, t.horarios[k].fecha);
          }
        } else {
          if EsEstudiante(t.personas, t.citas[i].idPersona) && t.citas[i].idPersona == p.id {
            assert !EnElDia(t, t.citas[i], p.id, t.horarios[k].fecha);
          }
        }
      }
    }
  }

  /** OnPostAsync keeps slot exclusivity. */
  lemma ReservarPreservaExclusivo(t: Tables, usuario: string, k: int, ahora: Instante)
    requires Valid(t) && Exclusivo(t)
    ensures Exclusivo(Reservar(t, usuario, k, ahora).after)
  {
    var s := Reservar(t, usuario, k, ahora);
    if s.outcome.Ok? {
      ReservaHechaPreservaExclusivo(t, s.after, FirstByUsuario(t.personas, usuario).value.id, k, usuario, ahora);
    }
  }

  /** The emergency booking of this page keeps slot exclusivity. */
  lemma EmergenciaPreservaExclusivo(t: Tables, usuario: string, datos: Option<int>,
                                    hoy: int, ahora: Instante, llegada: Minuto)
    requires Valid(t) && Exclusivo(t)
    ensures Exclusivo(AgendarEmergencia(t, usuario, datos, hoy, ahora, llegada).after)
  {
    var s := AgendarEmergencia(t, usuario, datos, hoy, ahora, llegada);
    if s.outcome.Ok? {
      EmergenciaHechaPreservaExclusivo(t, s.after, datos.value, CITA_CREADA, usuario, hoy, ahora, llegada);
    }
  }

  /** Two emergency bookings on one day by the same caller: the second one
      succeeds too, adds no slot, and both reference the same slot; starting
      from a day without one, exactly one emergency slot results. */
  lemma DosEmergenciasUnHorario(t: Tables, usuario: string, id1: int, id2: int,
                                hoy: int, a1: Instante, a2: Instante, l1: Minuto, l2: Minuto)
    requires Valid(t)
    requires AgendarEmergencia(t, usuario, Some(id1), hoy, a1, l1).outcome.Ok?
    requires EsEstudiante(t.personas, id2)
    ensures var s1 := AgendarEmergencia(t, usuario, Some(id1), hoy, a1, l1);
            var s2 := AgendarEmergencia(s1.after, usuario, Some(id2), hoy, a2, l2);
            s2.outcome.Ok? &&
            s2.after.horarios == s1.after.horarios &&
            s2.after.citas[|s1.after.citas|].idHorario == s1.after.citas[|t.citas|].idHorario &&
            (EmergenciasDe(t.horarios, hoy) == {} ==> |EmergenciasDe(s2.after.horarios, hoy)| == 1)
  {
    var s1 := AgendarEmergencia(t, usuario, Some(id1), hoy, a1, l1);
    var s2 := AgendarEmergencia(s1.after, usuario, Some(id2), hoy, a2, l2);
    EmergenciaIdempotente(t, s1.after, s2.after, id1, id2, CITA_CREADA, usuario, usuario, hoy, a1, a2, l1, l2);
  }

  /** The emergency path has no per-day limit: a student already booked on
      today's slot 1 gets an emergency booking today as well. */
  lemma EmergenciaSinLimiteDiario()
    ensures var t := Tables([Persona(7, "est1", "Ana", TIPO_ESTUDIANTE), Persona(8, "profe1", "Luis", TIPO_PROFESOR)],
                            map[1 := Horario(1, 10, 540, HORARIO_RESERVADO, None, None, None, None)],
                            [Cita(7, 1, CITA_CREADA, None, "est1")], 2);
            var s := AgendarEmergencia(t, "profe1", Some(7), 10, Instante(10, 600), 601);
            Valid(t) && UnaPorDia(t) && s.outcome.Ok? && !UnaPorDia(s.after)
  {
    var t := Tables([Persona(7, "est1", "Ana", TIPO_ESTUDIANTE), Persona(8, "profe1", "Luis", TIPO_PROFESOR)],
                    map[1 := Horario(1, 10, 540, HORARIO_RESERVADO, None, None, None, None)],
                    [Cita(7, 1, CITA_CREADA, None, "est1")], 2);
    assert FirstByUsuario(t.personas, "profe1") == Some(t.personas[1]);
    assert FindPersona(t.personas, 7) == Some(t.personas[0]);
    var s := AgendarEmergencia(t, "profe1", Some(7), 10, Instante(10, 600), 601);
    assert HorarioEmergencia(t.horarios, 10) == None by {
      assert EmergenciasDe(t.horarios, 10) == {};
    }
    assert s.after.citas[1].idHorario == 2;
    assert Choque(s.after, s.after.citas[0], s.after.citas[1]);
  }

  /** OnPostAsync keeps at most one emergency slot per date. */
  lemma ReservarPreservaUnaEmergencia(t: Tables, usuario: string, k: int, ahora: Instante)
    requires Valid(t) && UnaEmergenciaPorFecha(t)
    ensures UnaEmergenciaPorFecha(Reservar(t, usuario, k, ahora).after)
  {
    var s := Reservar(t, usuario, k, ahora);
    if s.outcome.Ok? {
      ReservaHechaPreservaUnaEmergencia(t, s.after, FirstByUsuario(t.personas, usuario).value.id, k, usuario, ahora);
    }
  }

  /** The emergency booking of this page keeps at most one emergency slot
      per date. */
  lemma EmergenciaPreservaUnaEmergencia(t: Tables, usuario: string, datos: Option<int>,
                                        hoy: int, ahora: Instante, llegada: Minuto)
    requires Valid(t) && UnaEmergenciaPorFecha(t)
    ensures UnaEmergenciaPorFecha(AgendarEmergencia(t, usuario, datos, hoy, ahora, llegada).after)
  {
    var s := AgendarEmergencia(t, usuario, datos, hoy, ahora, llegada);
    if s.outcome.Ok? {
      EmergenciaHechaPreservaUnaEmergencia(t, s.after, datos.value, CITA_CREADA, usuario, hoy, ahora, llegada);
    }
  }

  /** The per-day rule at work: once a student has booked slot `a`, booking
      another available slot `b` of the same date fails with
      `YaTieneCitaEseDia` and writes nothing. */
  lemma SegundaReservaMismoDia(t: Tables, usuario: string, a: int, b: int, a1: Instante, a2: Instante)
    requires Valid(t)
    requires TieneTipo(t.personas, usuario, TIPO_ESTUDIANTE)
    requires Reservar(t, usuario, a, a1).outcome.Ok?
    requires b in t.horarios && b != a && t.horarios[b].estado == HORARIO_DISPONIBLE
    requires t.horarios[b].fecha == t.horarios[a].fecha
    ensures var t1 := Reservar(t, usuario, a, a1).after;
            Reservar(t1, usuario, b, a2) == Step(Fail(YaTieneCitaEseDia), t1)
  {
    var t1 := Reservar(t, usuario, a, a1).after;
    var p := FirstByUsuario(t.personas, usuario).value;
    YaTieneCitaTrasReserva(t, t1, p.id, a, usuario, a1);
    assert t1.horarios[b] == t.horarios[b];
  }
}
