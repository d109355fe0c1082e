/** Pages/AgendarCitaProfesor.cshtml.cs: the listing and the reservation of
    AgendarCitasAdmin, always on behalf of the fixed user "profe1". */
module AgendarCitaProfesor {
  import opened Entities
  import opened Queries
  import opened Booking
  import opened Context

  /** The page's UsuarioActual, fixed in place of real authentication. */
  const USUARIO_ACTUAL := "profe1"

  /** OnGetAsync's HorariosDisponibles: the stored "Disponible" slots dated
      today or later when "profe1" is a "Funcionario" or "Profesor", dated
      today otherwise (also when "profe1" does not exist); all of them,
      each once, ascending by date and time. */
  function HorariosDisponibles(t: Tables, hoy: int): (r: seq<Horario>)
    requires Valid(t)
    ensures forall h :: h in r ==> h.estado == HORARIO_DISPONIBLE && h.id in t.horarios && t.horarios[h.id] == h
    ensures VeDesdeHoy(t.personas, USUARIO_ACTUAL) ==> forall h :: h in r ==> h.fecha >= hoy
    ensures !VeDesdeHoy(t.personas, USUARIO_ACTUAL) ==> forall h :: h in r ==> h.fecha == hoy
    ensures VeDesdeHoy(t.personas, USUARIO_ACTUAL) ==>
              forall k :: (k in t.horarios && t.horarios[k].estado == HORARIO_DISPONIBLE &&
                           t.horarios[k].fecha >= hoy) ==> t.horarios[k] in r
    ensures !VeDesdeHoy(t.personas, USUARIO_ACTUAL) ==>
              forall k :: (k in t.horarios && t.horarios[k].estado == HORARIO_DISPONIBLE &&
                           t.horarios[k].fecha == hoy) ==> t.horarios[k] in r
    ensures OrdenadoPorFechaHora(r) && SinRepetidos(r)
  {
    Listado(t.horarios, VentanaDosRamas(FirstByUsuario(t.personas, USUARIO_ACTUAL)), hoy)
  }

  /** OnPostAsync as a step: fails with nothing written when "profe1" does
      not exist or the slot is missing or not "Disponible"; otherwise adds
      one "Creada" booking created by "profe1" and flips the slot to
      "Reservado". */
  function Reservar(t: Tables, k: int, ahora: Instante): (s: Step)
    requires Valid(t)
    ensures Valid(s.after)
    ensures s.outcome.Fail? ==> s.after == t
    ensures FirstByUsuario(t.personas, USUARIO_ACTUAL).None? ==> s.outcome == Fail(UsuarioNoValido)
    ensures FirstByUsuario(t.personas, USUARIO_ACTUAL).Some? && !Reservable(t, k) ==>
              s.outcome == Fail(HorarioNoDisponible)
    ensures s.outcome.Ok? <==> FirstByUsuario(t.personas, USUARIO_ACTUAL).Some? && Reservable(t, k)
    ensures s.outcome.Ok? ==>
              ReservaHecha(t, s.after, FirstByUsuario(t.personas, USUARIO_ACTUAL).value.id, k, USUARIO_ACTUAL, ahora)
  {
    ReservaBasica(t, USUARIO_ACTUAL, k, ahora)
  }

  method OnPostAsync(db: EnfermeriaContext, horarioSeleccionadoId: int, ahora: Instante) returns (r: Outcome)
    requires db.Valid()
    modifies db
    ensures db.Valid()
    ensures Step(r, db.Snapshot()) == Reservar(old(db.Snapshot()), horarioSeleccionadoId, ahora)
  {
    var persona := FirstByUsuario(db.personas, USUARIO_ACTUAL);
    if persona.None? {
      return Fail(UsuarioNoValido);
    }
    if horarioSeleccionadoId !in db.horarios || db.horarios[horarioSeleccionadoId].estado != HORARIO_DISPONIBLE {
      return Fail(HorarioNoDisponible);
    }
    var horario := db.horarios[horarioSeleccionadoId];
    var nuevaCita := Cita(persona.value.id, horario.id, CITA_CREADA, None, USUARIO_ACTUAL);
    db.SaveCitaYHorario(nuevaCita, Reservado(horario, USUARIO_ACTUAL, ahora));
    r := Ok;
  }

  /** A slot booked successfully is gone from the next listing, whatever
      the day, and booking it again fails with nothing written. */
  lemma ReservadoSaleDelListado(t: Tables, k: int, a1: Instante, a2: Instante, hoy: int)
    requires Valid(t)
    requires Reservar(t, k, a1).outcome.Ok?
    ensures var t1 := Reservar(t, k, a1).after;
            (forall h :: h in HorariosDisponibles(t1, hoy) ==> h.id != k) &&
            Reservar(t1, k, a2) == Step(Fail(HorarioNoDisponible), t1)
  {
    var t1 := Reservar(t, k, a1).after;
    assert t1.horarios[k].estado == HORARIO_RESERVADO;
    assert FirstByUsuario(t1.personas, USUARIO_ACTUAL).Some?;
  }

  /** OnPostAsync keeps at most one emergency slot per date. */
  lemma ReservarPreservaUnaEmergencia(t: Tables, k: int, ahora: Instante)
    requires Valid(t) && UnaEmergenciaPorFecha(t)
    ensures UnaEmergenciaPorFecha(Reservar(t, k, ahora).after)
  {
    var s := Reservar(t, k, ahora);
    if s.outcome.Ok? {
      ReservaHechaPreservaUnaEmergencia(t, s.after, FirstByUsuario(t.personas, USUARIO_ACTUAL).value.id, k, USUARIO_ACTUAL, ahora);
    }
  }
}
