/** The database context the pages share (EnfermeriaContext). Its fields are
    the three tables; each method is one SaveChangesAsync, an atomic commit
    of the changes a handler has staged. */
module Context {
  import opened Entities

  class EnfermeriaContext {
    var personas: seq<Persona>
    var horarios: map<int, Horario>
    var citas: seq<Cita>
    var nextHorarioId: int

    /** The tables as a value. */
    function Snapshot(): Tables
      reads this
    {
      Tables(personas, horarios, citas, nextHorarioId)
    }

    predicate Valid()
      reads this
    {
      Entities.Valid(Snapshot())
    }

    constructor (t: Tables)
      requires Entities.Valid(t)
      ensures Valid() && Snapshot() == t
    {
      personas, horarios, citas, nextHorarioId := t.personas, t.horarios, t.citas, t.nextHorarioId;
    }

    /** Commits a new booking together with the tracked slot `h` written back
        under its own id. */
    method SaveCitaYHorario(cita: Cita, h: Horario)
      requires Valid() && h.id in horarios
      modifies this
      ensures Valid()
      ensures citas == old(citas) + [cita]
      ensures horarios == old(horarios)[h.id := h]
      ensures personas == old(personas) && nextHorarioId == old(nextHorarioId)
    {
      citas, horarios := citas + [cita], horarios[h.id := h];
    }

    /** Commits a new slot; the database assigns the next identity value and
        the returned id is the one it was stored under. */
    method SaveHorario(fecha: int, hora: Minuto, estado: string, usuario: string, ahora: Instante)
      returns (id: int)
      requires Valid()
      modifies this
      ensures Valid()
      ensures id == old(nextHorarioId) && id !in old(horarios)
      ensures horarios == old(horarios)[id := Horario(id, fecha, hora, estado, Some(usuario), Some(ahora), None, None)]
      ensures nextHorarioId == id + 1
      ensures personas == old(personas) && citas == old(citas)
    {
      id := nextHorarioId;
      horarios := horarios[id := Horario(id, fecha, hora, estado, Some(usuario), Some(ahora), None, None)];
      nextHorarioId := id + 1;
    }

    /** Commits a new booking. */
    method SaveCita(cita: Cita)
      requires Valid()
      modifies this
      ensures Valid()
      ensures citas == old(citas) + [cita]
      ensures personas == old(personas) && horarios == old(horarios) && nextHorarioId == old(nextHorarioId)
    {
      citas := citas + [cita];
    }
  }
}
