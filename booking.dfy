/** The booking rules the page handlers share: the outcome of a handler,
    the write set of a normal reservation, the find-or-create step for the
    day's emergency slot, the per-day test of AgendarCita, and the table
    invariants the handlers keep or break. */
module Booking {
  import opened Entities
  import opened Ordering

  /** Why a handler gave up; each case is one of the handlers' error messages. */
  datatype Error =
    | UsuarioNoEspecificado   // "Usuario no especificado."
    | DatosInvalidos          // "Datos inválidos."
    | UsuarioNoValido         // "Usuario no válido."
    | HorarioNoDisponible     // "El horario ya no está disponible."
    | YaTieneCitaEseDia       // "Ya tienes una cita agendada para este día..."
    | SoloProfesores          // "Solo los profesores pueden agendar emergencias."
    | EstudianteNoEncontrado  // "Estudiante no encontrado."

  datatype Outcome = Ok | Fail(error: Error)

  /** A handler's answer together with the tables it leaves behind. */
  datatype Step = Step(outcome: Outcome, after: Tables)

  /** `FindAsync(id)` found the slot and its Estado is "Disponible". */
  predicate Reservable(t: Tables, k: int)
  {
    k in t.horarios && t.horarios[k].estado == HORARIO_DISPONIBLE
  }

  /** The slot after a reservation by `usuario` at `ahora`. */
  function Reservado(h: Horario, usuario: string, ahora: Instante): (r: Horario)
    ensures r.id == h.id && r.fecha == h.fecha && r.hora == h.hora
    ensures r.usuarioCreacion == h.usuarioCreacion && r.fechaCreacion == h.fechaCreacion
    ensures r.estado == HORARIO_RESERVADO
    ensures r.usuarioModificacion == Some(usuario) && r.fechaModificacion == Some(ahora)
  {
    h.(estado := HORARIO_RESERVADO, usuarioModificacion := Some(usuario), fechaModificacion := Some(ahora))
  }

  /** What one successful normal booking commits: exactly one new "Creada"
      booking created by `usuario`, slot `k` flipped to "Reservado" with the
      modification audit set, and nothing else touched. */
  predicate ReservaHecha(t: Tables, t': Tables, idPersona: int, k: int, usuario: string, ahora: Instante)
  {
    t'.personas == t.personas &&
    t'.nextHorarioId == t.nextHorarioId &&
    t'.citas == t.citas + [Cita(idPersona, k, CITA_CREADA, None, usuario)] &&
    k in t.horarios && k in t'.horarios &&
    t'.horarios.Keys == t.horarios.Keys &&
    t'.horarios[k] == Reservado(t.horarios[k], usuario, ahora) &&
    forall j :: j in t.horarios && j != k ==> t'.horarios[j] == t.horarios[j]
  }

  /** The single SaveChangesAsync of a normal booking. */
  function ConReserva(t: Tables, idPersona: int, k: int, usuario: string, ahora: Instante): (t': Tables)
    requires Valid(t) && k in t.horarios
    ensures Valid(t')
    ensures ReservaHecha(t, t', idPersona, k, usuario, ahora)
  {
    t.(citas := t.citas + [Cita(idPersona, k, CITA_CREADA, None, usuario)],
       horarios := t.horarios[k := Reservado(t.horarios[k], usuario, ahora)])
  }

  /** The reservation of AgendarCitasAdmin and AgendarCitaProfesor: an
      unknown user, a missing slot and a slot that is not "Disponible" fail
      with nothing written; otherwise the booking is committed. No per-day
      limit is applied. */
  function ReservaBasica(t: Tables, usuario: string, k: int, ahora: Instante): (s: Step)
    requires Valid(t)
    ensures Valid(s.after)
    ensures s.outcome.Fail? ==> s.after == t
    ensures FirstByUsuario(t.personas, usuario).None? ==> s.outcome == Fail(UsuarioNoValido)
    ensures FirstByUsuario(t.personas, usuario).Some? && !Reservable(t, k) ==>
              s.outcome == Fail(HorarioNoDisponible)
    ensures s.outcome.Ok? <==> FirstByUsuario(t.personas, usuario).Some? && Reservable(t, k)
    ensures s.outcome.Ok? ==>
              ReservaHecha(t, s.after, FirstByUsuario(t.personas, usuario).value.id, k, usuario, ahora)
  {
    var persona := FirstByUsuario(t.personas, usuario);
    if persona.None? then Step(Fail(UsuarioNoValido), t)
    else if !Reservable(t, k) then Step(Fail(HorarioNoDisponible), t)
    else Step(Ok, ConReserva(t, persona.value.id, k, usuario, ahora))
  }

  predicate Activa(c: Cita)
  {
    c.estado != CITA_CANCELADA
  }

  /** Booking `c` is one of person `idPersona`'s, not "Cancelada", on a slot
      dated `fecha`. The join on the slot drops bookings whose slot is gone. */
  predicate EnElDia(t: Tables, c: Cita, idPersona: int, fecha: int)
  {
    c.idPersona == idPersona && c.idHorario in t.horarios &&
    t.horarios[c.idHorario].fecha == fecha && Activa(c)
  }

  /** The `AnyAsync` of AgendarCita's per-day rule; slots of every kind count. */
  predicate YaTieneCita(t: Tables, idPersona: int, fecha: int)
    ensures YaTieneCita(t, idPersona, fecha) <==>
              exists c :: c in t.citas && c.idPersona == idPersona && Activa(c) &&
                          c.idHorario in t.horarios && t.horarios[c.idHorario].fecha == fecha
  {
    exists i :: 0 <= i < |t.citas| && EnElDia(t, t.citas[i], idPersona, fecha)
  }

  /** Two bookings of one student, neither cancelled, on slots of the same date. */
  predicate Choque(t: Tables, a: Cita, b: Cita)
  {
    EsEstudiante(t.personas, a.idPersona) && Activa(a) &&
    a.idHorario in t.horarios &&
    EnElDia(t, b, a.idPersona, t.horarios[a.idHorario].fecha)
  }

  /** Every student has at most one booking not "Cancelada" per slot date. */
  ghost predicate UnaPorDia(t: Tables)
  {
    forall i, j :: 0 <= i < |t.citas| && 0 <= j < |t.citas| && i != j ==> !Choque(t, t.citas[i], t.citas[j])
  }

  /** The number of bookings that reference slot `k`. */
  function Referencias(citas: seq<Cita>, k: int): nat
  {
    if |citas| == 0 then 0
    else Referencias(citas[..|citas| - 1], k) + (if citas[|citas| - 1].idHorario == k then 1 else 0)
  }

  lemma ReferenciasAppend(citas: seq<Cita>, c: Cita, k: int)
    ensures Referencias(citas + [c], k) == Referencias(citas, k) + (if c.idHorario == k then 1 else 0)
  {
    assert (citas + [c])[..|citas|] == citas;
  }

  /** Slot exclusivity: every booking references a stored slot, an available
      slot is referenced by no booking and a reserved one by exactly one. */
  ghost predicate Exclusivo(t: Tables)
  {
    (forall i :: 0 <= i < |t.citas| ==> t.citas[i].idHorario in t.horarios) &&
    (forall k :: k in t.horarios && t.horarios[k].estado == HORARIO_DISPONIBLE ==> Referencias(t.citas, k) == 0) &&
    (forall k :: k in t.horarios && t.horarios[k].estado == HORARIO_RESERVADO ==> Referencias(t.citas, k) == 1)
  }

  /** A normal booking keeps slot exclusivity. */
  lemma ReservaHechaPreservaExclusivo(t: Tables, t': Tables, idPersona: int, k: int, usuario: string, ahora: Instante)
    requires Exclusivo(t) && Reservable(t, k)
    requires ReservaHecha(t, t', idPersona, k, usuario, ahora)
    ensures Exclusivo(t')
  {
    var c := Cita(idPersona, k, CITA_CREADA, None, usuario);
    forall j | j in t'.horarios
      ensures Referencias(t'.citas, j) == Referencias(t.citas, j) + (if j == k then 1 else 0)
    {
      ReferenciasAppend(t.citas, c, j);
    }
    assert forall i :: 0 <= i < |t.citas| ==> t'.citas[i] == t.citas[i];
  }

  /** The slots dated `hoy` whose Estado is "Emergencia". */
  function EmergenciasDe(hs: map<int, Horario>, hoy: int): set<int>
  {
    set k | k in hs && hs[k].fecha == hoy && hs[k].estado == HORARIO_EMERGENCIA
  }

  /** `FirstOrDefaultAsync(h => h.Fecha == hoy && h.Estado == "Emergencia")`,
      the first such slot in key order. */
  function HorarioEmergencia(hs: map<int, Horario>, hoy: int): (r: Option<int>)
    ensures r.None? <==> EmergenciasDe(hs, hoy) == {}
    ensures r.Some? ==> r.value in EmergenciasDe(hs, hoy) &&
                        forall k :: k in EmergenciasDe(hs, hoy) ==> r.value <= k
  {
    var es := EmergenciasDe(hs, hoy);
    if es == {} then None else Some(MinKey(es))
  }

  /** The emergency slot a handler inserts: today, 00:00, "Emergencia". */
  function NuevoHorarioEmergencia(id: int, usuario: string, hoy: int, ahora: Instante): (h: Horario)
    ensures h.id == id && h.fecha == hoy && h.hora == 0 && h.estado == HORARIO_EMERGENCIA
    ensures h.usuarioCreacion == Some(usuario) && h.fechaCreacion == Some(ahora)
    ensures h.usuarioModificacion.None? && h.fechaModificacion.None?
  {
    Horario(id, hoy, 0, HORARIO_EMERGENCIA, Some(usuario), Some(ahora), None, None)
  }

  /** Find-or-create, with its own SaveChangesAsync when a slot is created:
      the tables after that step and the slot the booking will reference. */
  function ConHorarioEmergencia(t: Tables, usuario: string, hoy: int, ahora: Instante): (r: (Tables, int))
    requires Valid(t)
    ensures Valid(r.0)
    ensures r.0.personas == t.personas && r.0.citas == t.citas
    ensures HorarioEmergencia(r.0.horarios, hoy) == Some(r.1)
    ensures EmergenciasDe(r.0.horarios, hoy) == EmergenciasDe(t.horarios, hoy) + {r.1}
    ensures HorarioEmergencia(t.horarios, hoy).Some? ==>
              r.0 == t && HorarioEmergencia(t.horarios, hoy) == Some(r.1)
    ensures HorarioEmergencia(t.horarios, hoy).None? ==>
              r.1 == t.nextHorarioId && r.1 !in t.horarios &&
              r.0.horarios == t.horarios[r.1 := NuevoHorarioEmergencia(r.1, usuario, hoy, ahora)] &&
              r.0.nextHorarioId == t.nextHorarioId + 1
  {
    match HorarioEmergencia(t.horarios, hoy)
    case Some(e) => (t, e)
    case None =>
      var e := t.nextHorarioId;
      var hs := t.horarios[e := NuevoHorarioEmergencia(e, usuario, hoy, ahora)];
      assert EmergenciasDe(hs, hoy) == {e} by {
        forall k ensures k in EmergenciasDe(hs, hoy) <==> k == e {
          if k != e && k in hs {
            assert k in t.horarios && hs[k] == t.horarios[k];
            assert k !in EmergenciasDe(t.horarios, hoy);
          }
        }
      }
      (t.(horarios := hs, nextHorarioId := e + 1), e)
  }

  /** What a successful emergency booking leaves behind: persons untouched,
      exactly one booking appended for the student, with status `estado`,
      arrival minute `llegada` and creator `usuario`, referencing today's
      emergency slot; a slot is added (today, 00:00, "Emergencia", created
      at `ahora`) only when there was none, and otherwise the slot table is
      unchanged. The two instants are separate readings of the clock. */
  ghost predicate EmergenciaHecha(t: Tables, t': Tables, idEstudiante: int, estado: string,
                                  usuario: string, hoy: int, ahora: Instante, llegada: Minuto)
  {
    t'.personas == t.personas &&
    |t'.citas| == |t.citas| + 1 && t'.citas[..|t.citas|] == t.citas &&
    var c := t'.citas[|t.citas|];
    c == Cita(idEstudiante, c.idHorario, estado, Some(llegada), usuario) &&
    HorarioEmergencia(t'.horarios, hoy) == Some(c.idHorario) &&
    EmergenciasDe(t'.horarios, hoy) == EmergenciasDe(t.horarios, hoy) + {c.idHorario} &&
    (HorarioEmergencia(t.horarios, hoy).Some? ==>
       t'.horarios == t.horarios && t'.nextHorarioId == t.nextHorarioId &&
       HorarioEmergencia(t.horarios, hoy) == Some(c.idHorario)) &&
    (HorarioEmergencia(t.horarios, hoy).None? ==>
       c.idHorario == t.nextHorarioId &&
       t'.horarios == t.horarios[c.idHorario := NuevoHorarioEmergencia(c.idHorario, usuario, hoy, ahora)] &&
       t'.nextHorarioId == t.nextHorarioId + 1)
  }

  /** Both commits of an emergency booking. */
  function ConCitaEmergencia(t: Tables, idEstudiante: int, estado: string, usuario: string,
                             hoy: int, ahora: Instante, llegada: Minuto): (t': Tables)
    requires Valid(t)
    ensures Valid(t')
    ensures EmergenciaHecha(t, t', idEstudiante, estado, usuario, hoy, ahora, llegada)
  {
    var (t1, e) := ConHorarioEmergencia(t, usuario, hoy, ahora);
    var t2 := t1.(citas := t1.citas + [Cita(idEstudiante, e, estado, Some(llegada), usuario)]);
    assert t2.citas[..|t.citas|] == t.citas;
    t2
  }

  /** Two emergency bookings on one day leave as many of that day's
      emergency slots as one, and both reference the same slot. */
  lemma EmergenciaIdempotente(t: Tables, t1: Tables, t2: Tables,
                                                 id1: int, id2: int, estado: string, u1: string, u2: string,
                                                 hoy: int, a1: Instante, a2: Instante, l1: Minuto, l2: Minuto)
    requires EmergenciaHecha(t, t1, id1, estado, u1, hoy, a1, l1)
    requires EmergenciaHecha(t1, t2, id2, estado, u2, hoy, a2, l2)
    ensures t2.horarios == t1.horarios
    ensures EmergenciasDe(t2.horarios, hoy) == EmergenciasDe(t1.horarios, hoy)
    ensures t2.citas[|t1.citas|].idHorario == t1.citas[|t.citas|].idHorario
    ensures EmergenciasDe(t.horarios, hoy) == {} ==> |EmergenciasDe(t2.horarios, hoy)| == 1
  {
    var c1 := t1.citas[|t.citas|];
    assert HorarioEmergencia(t1.horarios, hoy) == Some(c1.idHorario);
    if EmergenciasDe(t.horarios, hoy) == {} {
      assert EmergenciasDe(t1.horarios, hoy) == {c1.idHorario};
    }
  }

  /** An emergency booking keeps slot exclusivity: it only ever references
      a slot whose Estado is "Emergencia". */
  lemma EmergenciaHechaPreservaExclusivo(t: Tables, t': Tables, idEstudiante: int, estado: string,
                                         usuario: string, hoy: int, ahora: Instante, llegada: Minuto)
    requires Valid(t) && Exclusivo(t)
    requires EmergenciaHecha(t, t', idEstudiante, estado, usuario, hoy, ahora, llegada)
    ensures Exclusivo(t')
  {
    var c := t'.citas[|t.citas|];
    assert t'.citas == t.citas + [c] by {
      assert t'.citas == t'.citas[..|t.citas|] + [c];
    }
    assert c.idHorario in EmergenciasDe(t'.horarios, hoy);
    forall j | j in t'.horarios && j != c.idHorario
      ensures Referencias(t'.citas, j) == Referencias(t.citas, j)
    {
      ReferenciasAppend(t.citas, c, j);
    }
    forall j | j in t'.horarios && t'.horarios[j].estado != HORARIO_EMERGENCIA
      ensures j in t.horarios && t'.horarios[j] == t.horarios[j]
    {
    }
  }

  /** At most one "Emergencia" slot exists per calendar date. */
  ghost predicate UnaEmergenciaPorFecha(t: Tables)
  {
    forall d :: |EmergenciasDe(t.horarios, d)| <= 1
  }

  /** A normal booking keeps one emergency slot per date: the slot it
      touches was "Disponible" and becomes "Reservado", neither of which
      is "Emergencia". */
  lemma ReservaHechaPreservaUnaEmergencia(t: Tables, t': Tables, idPersona: int, k: int, usuario: string, ahora: Instante)
    requires UnaEmergenciaPorFecha(t) && Reservable(t, k)
    requires ReservaHecha(t, t', idPersona, k, usuario, ahora)
    ensures UnaEmergenciaPorFecha(t')
  {
    forall d ensures EmergenciasDe(t'.horarios, d) == EmergenciasDe(t.horarios, d) {
      forall j ensures j in EmergenciasDe(t'.horarios, d) <==> j in EmergenciasDe(t.horarios, d) {
        if j in t.horarios && j != k {
          assert t'.horarios[j] == t.horarios[j];
        }
      }
    }
  }

  /** An emergency booking keeps one emergency slot per date: it reuses
      the day's slot when there is one and creates one only when the day
      has none. */
  lemma EmergenciaHechaPreservaUnaEmergencia(t: Tables, t': Tables, idEstudiante: int, estado: string,
                                             usuario: string, hoy: int, ahora: Instante, llegada: Minuto)
    requires Valid(t) && UnaEmergenciaPorFecha(t)
    requires EmergenciaHecha(t, t', idEstudiante, estado, usuario, hoy, ahora, llegada)
    ensures UnaEmergenciaPorFecha(t')
  {
    var e := t'.citas[|t.citas|].idHorario;
    forall d ensures |EmergenciasDe(t'.horarios, d)| <= 1 {
      if HorarioEmergencia(t.horarios, hoy).Some? {
        assert t'.horarios == t.horarios;
      } else if d == hoy {
        assert EmergenciasDe(t'.horarios, d) == {e};
      } else {
        assert e !in t.horarios;
        assert EmergenciasDe(t'.horarios, d) == EmergenciasDe(t.horarios, d) by {
          forall j ensures j in EmergenciasDe(t'.horarios, d) <==> j in EmergenciasDe(t.horarios, d) {
            if j != e && j in t.horarios {
              assert t'.horarios[j] == t.horarios[j];
            }
          }
        }
      }
    }
  }

  /** After a normal booking the person holds a booking on that slot's
      date, and every booking it held before is still counted. */
  lemma YaTieneCitaTrasReserva(t: Tables, t': Tables, idPersona: int, k: int, usuario: string, ahora: Instante)
    requires ReservaHecha(t, t', idPersona, k, usuario, ahora)
    ensures YaTieneCita(t', idPersona, t.horarios[k].fecha)
    ensures forall p, f :: YaTieneCita(t, p, f) ==> YaTieneCita(t', p, f)
  {
    assert EnElDia(t', t'.citas[|t.citas|], idPersona, t.horarios[k].fecha);
    forall p, f | YaTieneCita(t, p, f) ensures YaTieneCita(t', p, f) {
      var i :| 0 <= i < |t.citas| && EnElDia(t, t.citas[i], p, f);
      assert t'.citas[i] == t.citas[i];
      assert EnElDia(t', t'.citas[i], p, f);
    }
  }
}
