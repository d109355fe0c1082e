# Booking and admission control of the nursing-appointment pages

This project models the core of the CitasEnfermeria Razor Pages
application: the four page handlers through which people book nursing
appointments against a table of time slots. They are AgendarCitasAdmin,
AgendarCita, AgendarCitaProfesor and AgendarEmergencia.

The three tables that the handlers read and write are modelled as values:
- `EnfPersonas` is the `Persona` type;
- `EnfHorarios` is the `Horario` type, keyed by slot id;
- `EnfCitas` is the `Cita` type.

Together they form `Entities.Tables`. Each handler is another value-level
function, `Tables -> Step(outcome, after)`. A `Step` holds the outcome (`Ok`
or a named failure) and the tables after the request.

The handlers become methods on the class `Context.EnfermeriaContext`. The
class holds the tables as fields, and its methods are the
`SaveChangesAsync` commits. Each handler method proves that it leaves
exactly the state that its step function describes. The listings that the
GET handlers show are pure functions.

Module layout:
- `Ordering`: the orders the queries sort by, and the key-order scan of the
  slot table.
- `Entities`: rows, tables, status literals, and person lookup
  (`FirstOrDefault` by user name, `Find` by id).
- `Queries`: the slot listing (status filter, date window,
  `OrderBy(Fecha).ThenBy(Hora)`) and the student listing (`OrderBy(Nombre)`).
- `Booking`: the logic the handlers share:
  - the normal reservation;
  - the find-or-create of the day's emergency slot and the emergency booking;
  - the three invariants: slot exclusivity (`Exclusivo`), one booking
    per student per date (`UnaPorDia`), and at most one emergency slot per
    date (`UnaEmergenciaPorFecha`).
- `Context`: the database context.
- One module per page: `AgendarCitasAdmin`, `AgendarCita`,
  `AgendarCitaProfesor` and `AgendarEmergencia`.

Modelling choices:
- The clock is passed in. `hoy` is `DateTime.Today` as a day number, and
  `ahora` is `DateTime.Now` at minute resolution.
- The emergency handlers read `DateTime.Now` twice: once for a new slot's
  creation time and once, after that slot's commit, for the booking's
  arrival time. These are two parameters, `ahora` and `llegada`, so the
  model does not tie the two readings together.
- The user name is passed in as a parameter, except on the two pages that
  fix it to "profe1".
- The emergency request body is passed in already deserialized, as
  `Option<int>`: `None` means deserialization yielded null.
- Slots are scanned in ascending key order. An unordered `FirstOrDefault`
  over slots therefore picks the lowest key, and ties in the slot listing's
  `ORDER BY` keep ascending key order.
- Persons are scanned in table order, the order of the sequence, which need
  not be ascending by id. `FirstOrDefault` by user name picks the first
  match in that order, and ties in the student listing's `OrderBy(Nombre)`
  keep it.

The model follows the code in the following places, where a different rule
would also be reasonable:
- The per-day limit of AgendarCita counts bookings on every slot of the day,
  emergency slots included. It is not restricted to non-emergency slots.
  Bookings whose slot row is missing do not count, because the
  `Include(...)` join drops them.
- The reservation is the code's check-then-act: a read, a status test, and
  one commit of the booking insert plus the status change. It is not a
  conditional status write that succeeds only if the slot is still
  "Disponible" at commit time.
- Emergency bookings keep the status literal of each page: "Emergencia" in
  AgendarCitasAdmin and "Creada" in AgendarCita.
- In AgendarCita, a caller whose Tipo is none of the three roles sees every
  "Disponible" slot, of every date.
- AgendarEmergencia books the fixed slot 1 for any stored person, without
  checking the slot's status or the person's Tipo. `RegistrarRompeExclusivo`
  shows that this breaks slot exclusivity.
- AgendarCitasAdmin applies no per-day limit (`ReservarSinLimiteDiario`).
  The emergency path of AgendarCita has none either
  (`EmergenciaSinLimiteDiario`).

## Model

| member | source | states |
|---|---|---|
| Ordering.SortBy | Pages/AgendarCitasAdmin.cshtml.cs:76-77 | the result is ordered by the key under the lexicographic order, and it is a permutation of the input |
| Ordering.MinKey | Pages/AgendarCitasAdmin.cshtml.cs:152-153 | the result is a member of the non-empty key set and no larger than any other member |
| Ordering.KeysAscending | Pages/AgendarCitasAdmin.cshtml.cs:67 | exactly the keys of the set, strictly increasing: the order in which rows are scanned |
| Entities.FirstByUsuario | Pages/AgendarCitasAdmin.cshtml.cs:92 | `None` exactly when no person has that user name; otherwise the first such person |
| Entities.FindPersona | Pages/AgendarCitasAdmin.cshtml.cs:147 | `None` exactly when no person has the id; otherwise a stored person with that id |
| Entities.FindPersonaOf | Pages/AgendarCitasAdmin.cshtml.cs:147 | with unique ids, looking up a stored person's id yields that person |
| Queries.VentanaDosRamas | Pages/AgendarCitasAdmin.cshtml.cs:68-75 | never every date; today and later exactly for a stored "Funcionario" or "Profesor", today only for anybody else, unknown users included |
| Queries.Listado | Pages/AgendarCitasAdmin.cshtml.cs:67-76 | the result holds exactly the stored "Disponible" slots within the window, each once, ascending by date then time |
| Queries.Estudiantes | Pages/AgendarEmergencia.cshtml.cs:24-25 | each person occurs exactly as often as in the table if a student, and otherwise not at all |
| Queries.EstudiantesPorNombre | Pages/AgendarEmergencia.cshtml.cs:22-28 | exactly the students, with their multiplicities, ordered by name |
| Booking.Reservado | Pages/AgendarCitasAdmin.cshtml.cs:125-127 | the reserved slot keeps its id, date, time and creation audit; its status becomes "Reservado" and its modification audit is the caller and the instant |
| Booking.YaTieneCita | Pages/AgendarCita.cshtml.cs:100-104 | holds exactly when the person has a booking not "Cancelada" whose slot is stored and has that date, whatever the slot's status |
| Booking.YaTieneCitaTrasReserva | Pages/AgendarCita.cshtml.cs:100-126 | after a normal booking the person has a booking on that slot's date, and every earlier hit of the per-day test still holds |
| Booking.NuevoHorarioEmergencia | Pages/AgendarCitasAdmin.cshtml.cs:156-163 | the inserted slot is dated today at 00:00 with status "Emergencia", created by the caller at the given instant, never modified |
| Booking.ConReserva | Pages/AgendarCitasAdmin.cshtml.cs:117-128 | adds one "Creada" booking and marks the slot "Reservado" with the modification audit; persons and other slots are unchanged; the tables remain valid |
| Booking.ReservaBasica | Pages/AgendarCitasAdmin.cshtml.cs:106-128 | an unknown user fails with `UsuarioNoValido`; a missing or non-"Disponible" slot fails with `HorarioNoDisponible`; a failure writes nothing; success exactly when neither holds, and then one booking is added and the slot reserved |
| Booking.HorarioEmergencia | Pages/AgendarCitasAdmin.cshtml.cs:151-153 | `None` exactly when today has no "Emergencia" slot; otherwise the lowest such slot id |
| Booking.ConHorarioEmergencia | Pages/AgendarCitasAdmin.cshtml.cs:150-167 | reuses today's emergency slot when one exists, leaving the tables alone; otherwise inserts one at 00:00 under the next identity value; afterwards the slot found is that day's emergency slot |
| Booking.ConCitaEmergencia | Pages/AgendarCitasAdmin.cshtml.cs:150-178 | appends exactly one booking, with the separately read arrival minute, referencing today's emergency slot; a slot is created, with its own creation instant, only if there was none |
| Booking.EmergenciaIdempotente | Pages/AgendarCitasAdmin.cshtml.cs:150-178 | a second emergency booking on the same day adds no slot and references the same slot as the first; from a day without one, exactly one emergency slot results |
| Booking.ReservaHechaPreservaExclusivo | Pages/AgendarCitasAdmin.cshtml.cs:111-128 | a normal reservation keeps slot exclusivity: references stay valid, a "Disponible" slot has no booking, a "Reservado" slot exactly one |
| Booking.EmergenciaHechaPreservaExclusivo | Pages/AgendarCitasAdmin.cshtml.cs:150-178 | an emergency booking keeps slot exclusivity, since it references only an "Emergencia" slot |
| Booking.ReservaHechaPreservaUnaEmergencia | Pages/AgendarCitasAdmin.cshtml.cs:111-128 | a normal reservation keeps at most one "Emergencia" slot per date |
| Booking.EmergenciaHechaPreservaUnaEmergencia | Pages/AgendarCitasAdmin.cshtml.cs:150-178 | an emergency booking keeps at most one "Emergencia" slot per date: it creates one only on a day that has none |
| Context.EnfermeriaContext.SaveCitaYHorario | Pages/AgendarCitasAdmin.cshtml.cs:124-128 | one commit appends the booking and writes the tracked slot back under its id; nothing else changes |
| Context.EnfermeriaContext.SaveHorario | Pages/AgendarCitasAdmin.cshtml.cs:164-165 | the new slot is stored under the next identity value, which is returned and then advanced; nothing else changes |
| Context.EnfermeriaContext.SaveCita | Pages/AgendarCitasAdmin.cshtml.cs:177-178 | one commit appends the booking; nothing else changes |
| AgendarCitasAdmin.HorariosDisponibles | Pages/AgendarCitasAdmin.cshtml.cs:61-77 | a "Funcionario" or "Profesor" gets every stored "Disponible" slot dated today or later; anyone else, unknown users included, gets those dated today; each once, ascending by date and time |
| AgendarCitasAdmin.OnPostAsync | Pages/AgendarCitasAdmin.cshtml.cs:89-131 | the new state and outcome are those of the shared reservation; the listing loaded first has no effect |
| AgendarCitasAdmin.AgendarEmergencia | Pages/AgendarCitasAdmin.cshtml.cs:136-180 | fails, writing nothing, in this order: a null payload, a caller who is not a "Profesor", a target who is not a stored "Estudiante"; success exactly otherwise, adding an "Emergencia" booking on today's emergency slot |
| AgendarCitasAdmin.OnPostAgendarEmergenciaAsync | Pages/AgendarCitasAdmin.cshtml.cs:136-180 | the two commits leave exactly the state and outcome of `AgendarEmergencia` |
| AgendarCitasAdmin.DosEmergenciasUnHorario | Pages/AgendarCitasAdmin.cshtml.cs:150-178 | after one success, an emergency request for another student the same day also succeeds, creates no slot and shares the first one's slot |
| AgendarCitasAdmin.ReservarPreservaExclusivo | Pages/AgendarCitasAdmin.cshtml.cs:106-128 | the page's reservation keeps slot exclusivity |
| AgendarCitasAdmin.EmergenciaPreservaExclusivo | Pages/AgendarCitasAdmin.cshtml.cs:150-178 | the page's emergency booking keeps slot exclusivity |
| AgendarCitasAdmin.ReservarPreservaUnaEmergencia | Pages/AgendarCitasAdmin.cshtml.cs:106-128 | the page's reservation keeps at most one emergency slot per date |
| AgendarCitasAdmin.EmergenciaPreservaUnaEmergencia | Pages/AgendarCitasAdmin.cshtml.cs:150-178 | the page's emergency booking keeps at most one emergency slot per date |
| AgendarCitasAdmin.ReservarSinLimiteDiario | Pages/AgendarCitasAdmin.cshtml.cs:89-131 | a student already booked on a date obtains a second booking on that date: this page does not keep one booking per day |
| AgendarCita.VentanaDe | Pages/AgendarCita.cshtml.cs:51-58 | exactly a student gets today only, exactly a "Funcionario" or "Profesor" today and later, exactly any other Tipo every date |
| AgendarCita.HorariosDisponibles | Pages/AgendarCita.cshtml.cs:31-63 | nothing for an unknown user; every stored "Disponible" slot of today for a student, of today or later for a "Funcionario" or "Profesor", of any date for any other Tipo; each once, ascending by date and time |
| AgendarCita.Estudiantes | Pages/AgendarCita.cshtml.cs:65-71 | empty unless the caller is a "Profesor"; then exactly the stored students, each as often as stored, ordered by name |
| AgendarCita.Reservar | Pages/AgendarCita.cshtml.cs:74-130 | fails, writing nothing, in this order: unknown user, slot missing or not "Disponible", a student already holding a non-"Cancelada" booking on that date; success exactly otherwise, with one booking added and the slot reserved |
| AgendarCita.OnPostAsync | Pages/AgendarCita.cshtml.cs:74-130 | the commit leaves exactly the state and outcome of `Reservar` |
| AgendarCita.ReservarPreservaUnaPorDia | Pages/AgendarCita.cshtml.cs:96-126 | if every student has at most one active booking per date before the reservation, that still holds after it |
| AgendarCita.SegundaReservaMismoDia | Pages/AgendarCita.cshtml.cs:96-110 | once a student has booked a slot, booking another available slot of the same date fails with `YaTieneCitaEseDia` and writes nothing |
| AgendarCita.ReservarPreservaExclusivo | Pages/AgendarCita.cshtml.cs:88-126 | the page's reservation keeps slot exclusivity |
| AgendarCita.AgendarEmergencia | Pages/AgendarCita.cshtml.cs:135-190 | fails, writing nothing, in this order: empty user name, null payload, caller not a "Profesor", target not a stored "Estudiante"; success exactly otherwise, adding a "Creada" booking on today's emergency slot |
| AgendarCita.OnPostAgendarEmergenciaAsync | Pages/AgendarCita.cshtml.cs:135-190 | the two commits leave exactly the state and outcome of `AgendarEmergencia` |
| AgendarCita.EmergenciaPreservaExclusivo | Pages/AgendarCita.cshtml.cs:157-188 | the page's emergency booking keeps slot exclusivity |
| AgendarCita.DosEmergenciasUnHorario | Pages/AgendarCita.cshtml.cs:157-188 | after one success, a second emergency request the same day succeeds, creates no slot and shares the slot |
| AgendarCita.ReservarPreservaUnaEmergencia | Pages/AgendarCita.cshtml.cs:88-126 | the page's reservation keeps at most one emergency slot per date |
| AgendarCita.EmergenciaPreservaUnaEmergencia | Pages/AgendarCita.cshtml.cs:157-188 | the page's emergency booking keeps at most one emergency slot per date |
| AgendarCita.EmergenciaSinLimiteDiario | Pages/AgendarCita.cshtml.cs:135-190 | an emergency booking gives a student already booked today a second active booking today |
| AgendarCitaProfesor.HorariosDisponibles | Pages/AgendarCitaProfesor.cshtml.cs:27-41 | for "profe1": every stored "Disponible" slot dated today or later if "profe1" is a "Funcionario" or "Profesor", otherwise those dated today; each once, ascending by date and time |
| AgendarCitaProfesor.Reservar | Pages/AgendarCitaProfesor.cshtml.cs:46-71 | the shared reservation on behalf of "profe1", with its failure cases and its writes |
| AgendarCitaProfesor.OnPostAsync | Pages/AgendarCitaProfesor.cshtml.cs:46-74 | the commit leaves exactly the state and outcome of `Reservar` |
| AgendarCitaProfesor.ReservadoSaleDelListado | Pages/AgendarCitaProfesor.cshtml.cs:29-71 | a slot booked successfully is absent from every later listing, and booking it again fails with `HorarioNoDisponible`, writing nothing |
| AgendarCitaProfesor.ReservarPreservaUnaEmergencia | Pages/AgendarCitaProfesor.cshtml.cs:54-71 | the page's reservation keeps at most one emergency slot per date |
| AgendarEmergencia.Estudiantes | Pages/AgendarEmergencia.cshtml.cs:22-28 | exactly the stored students, each as often as stored, ordered by name |
| AgendarEmergencia.Registrar | Pages/AgendarEmergencia.cshtml.cs:30-49 | an unknown person id fails with `EstudianteNoEncontrado`, writing nothing; success exactly when the id is stored, appending one "Creada" booking on slot 1 with the arrival time and creator "profe1"; slots and persons untouched |
| AgendarEmergencia.OnPostAsync | Pages/AgendarEmergencia.cshtml.cs:30-53 | the commit leaves exactly the state and outcome of `Registrar` |
| AgendarEmergencia.RegistrarCuentaEnHorarioFijo | Pages/AgendarEmergencia.cshtml.cs:39-49 | each success adds one reference to slot 1 and none to any other slot |
| AgendarEmergencia.RegistrarPreservaUnaEmergencia | Pages/AgendarEmergencia.cshtml.cs:39-49 | a registration writes no slot and keeps at most one emergency slot per date |
| AgendarEmergencia.RegistrarRompeExclusivo | Pages/AgendarEmergencia.cshtml.cs:42 | from an exclusive store where slot 1 is "Disponible", a registration leaves that available slot referenced by a booking |

## Left out

- Request handling, rendering, `TempData` messages, redirects, `Page()` results and JSON responses are not modelled. A handler's visible result is reduced to `Ok` or a named `Error`, and the message text is not kept.
- The view-model properties the handlers fill are not stored. `HorariosDisponibles` and `Estudiantes` are what the listing functions return. `EsProfesor` is the `Entities.EsProfesor` predicate. `ErrorCita` is the `Error` inside a failed `Outcome`. The listing and student query loaded at the start of AgendarCitasAdmin's `OnPostAsync` changes no table, so it is left out of that step.
- `SetUserType`, `LoadData` and `LoadDataAsync` of AgendarCitasAdmin are never called by its handlers. Their query is the one `AgendarCitasAdmin.HorariosDisponibles` models.
- The `catch` of AgendarCita's emergency handler is not modelled, because its exception text comes from the database. Every step here either fails before writing or commits.
- Concurrency is not modelled: requests are taken one at a time. The check-then-act race of the reservation and the race on creating the emergency slot need interleavings of two requests that this model does not express.
- The clock is `hoy`, `ahora` and, on the emergency paths, `llegada`. All three are independent parameters, so the model does not promise that they are ordered in time. `TimeOnly` and `DateTime` keep only minutes.
- Name ordering compares character codes (ordinal order). The database's collation is not modelled.
- Slot ordering ties and the unordered `FirstOrDefault` over slots use ascending primary-key order. Persons are taken in table order. The database promises neither.
- Foreign-key and check constraints of the database are not modelled. Three consequences follow:
  - When AgendarEmergencia's fixed slot 1 is missing, the commit would fail. The model instead records a booking whose slot does not exist.
  - A check constraint may reject AgendarCitasAdmin's "Emergencia" booking status, and a comment in AgendarCita hints that it does. If so, the booking commit throws after the new emergency slot was already committed. The model's pair of commits always succeeds.
  - A uniqueness constraint on the day's emergency slot is not modelled. The model proves the invariant only for requests taken one at a time.
- Comparisons made in SQL, such as user names and status literals, use the database collation. The model compares strings exactly.
- The identity column and creation timestamp of `EnfCitas`, and the remaining columns of the three tables, are not modelled, because no handler reads them.
- Authentication is not modelled: the user name is taken as given, as in the pages.
