# SimpleWMS room booking, modelled in Dafny

SimpleWMS's booking API keeps two tables: rooms (`salles`: name, capacity,
location, availability flag) and reservations (a room id, a date, a time, the
requesting user and an optional comment). The reservation service refuses to
store two reservations on the same (room, date, time) triple, the "créneau":
`check_availability` is a single equality lookup on that triple, `create`
consults it before inserting, and `update` consults it only when the triple
changes. The HTTP routers add the one room-name rule (a create whose name is
taken gets 400) and turn an absent record into 404 and a `ValueError` into 400.

The model keeps each table as a sequence of records in insertion order inside
a class (`SalleService.SalleTable`, `ReservationService.ReservationTable`)
whose methods change it; the read-only queries are functions of the table's
contents. Identifiers are naturals, and a create picks any identifier not in
use (what a generated UUID stands for). Route results are
`Http.Response`: a body (status 200) or an HTTP error with its status and
detail message. Service-level `ValueError`s are `ReservationService.Result`.

Proved: the ledger never holds two reservations on one triple and ids stay
unique (each table's `Valid()`, kept by every mutating method), including the
update that keeps its triple and therefore never meets the availability check
that its own record would fail; every mutation says exactly what the new table
is and that a refused or not-found call changes nothing; creates through the
room route keep names pairwise distinct, while an update can duplicate a name;
after a delete, a get of the same id is 404.

Room names are not a constraint of the table: the `nom` column
(`SimpleWMS/app/models/salle.py:11`) carries no uniqueness, and only the
create route looks a name up before inserting
(`SimpleWMS/app/routers/salle.py:22-24`); an update writes any name. The
room's relationship to its reservations (`SimpleWMS/app/models/salle.py:17`)
declares no delete cascade, so deleting a room does not delete its
reservations.

Files: `common.dfy` (first match, filter, page, row removal, lookup by id,
unique ids, fresh ids), `models.dfy` (records), `salle_service.dfy`,
`reservation_service.dfy`, `http.dfy`, `salle_router.dfy`,
`reservation_router.dfy`, `scenarios.dfy` (client code replaying the test
suite's request sequences).

## Model

| member | source | states |
|---|---|---|
| Common.FirstIndex | SimpleWMS/app/services/reservation.py:7 | `.filter(p).first()`: the returned position satisfies `p` and no earlier row does; `|rows|` means no row does |
| Common.Where | SimpleWMS/app/services/salle.py:13-15 | every row kept is a table row that passes the filter, every table row that passes is kept, and the result is no longer than the table |
| Common.WhereAppend | SimpleWMS/app/services/salle.py:15-16 | filtering keeps table order: it distributes over concatenation |
| Common.Page | SimpleWMS/app/services/salle.py:16 | `offset(skip).limit(limit)`: at most `limit` rows, exactly `min(limit, |rows| - skip)` when skip is inside the table, the i-th being row `skip + i` |
| Common.IdIndex | SimpleWMS/app/services/reservation.py:6-7 | position of the first row with that id, or the table length when none has it (rooms: `SimpleWMS/app/services/salle.py:6-7`) |
| Common.GetById | SimpleWMS/app/services/salle.py:6-7 | `get_salle` and `get_reservation`: none iff no row has the id; otherwise the first row, in table order, that has it |
| Common.AppendKeepsUniqueIds | SimpleWMS/app/services/salle.py:18-23 | appending a row under an unused id keeps ids unique (both creates) |
| Common.OverwriteKeepsUniqueIds | SimpleWMS/app/services/salle.py:25-32 | overwriting a row's fields and keeping its id keeps ids unique (both updates) |
| Common.RemoveKeepsUniqueIds | SimpleWMS/app/services/salle.py:34-39 | removing a row keeps ids unique, and with unique ids the removed id is then not found (both deletes) |
| Common.FreshIdExists | SimpleWMS/app/models/salle.py:10 | however many ids are in use, an unused id exists for a new record |
| Models.SalleBody | SimpleWMS/app/schemas/salle.py:4-8 | a room body carries the given fields, and an omitted `disponible` means available |
| ReservationService.ListReservations | SimpleWMS/app/services/reservation.py:9-10 | the rows `[skip, skip + limit)` of the table, in order: empty when skip is past the end, otherwise exactly `min(limit, |rows| - skip)` rows, the i-th being row `skip + i` |
| ReservationService.CheckAvailability | SimpleWMS/app/services/reservation.py:12-19 | true iff no stored reservation has that room, that date and that time (exact triple, not an overlap test) |
| ReservationService.CreateKeepsNoDoubleBooking | SimpleWMS/app/services/reservation.py:21-30 | appending on a free triple keeps every triple held at most once |
| ReservationService.StoredSlotIsTaken | SimpleWMS/app/services/reservation.py:36-40 | a stored record's own triple is never available, so an unconditional check would reject an update that keeps the triple |
| ReservationService.CreateTakesSlot | SimpleWMS/app/services/reservation.py:21-30 | after a create, the created triple is no longer available |
| ReservationService.SameSlotUpdateKeepsNoDoubleBooking | SimpleWMS/app/services/reservation.py:36-45 | an update that keeps the triple skips the check and cannot conflict with itself: no double booking afterwards |
| ReservationService.UpdateRefusedIffHeldByAnother | SimpleWMS/app/services/reservation.py:36-40 | in a ledger without double bookings the update guard refuses exactly when a different reservation holds the new triple (both directions) |
| ReservationService.MovedUpdateKeepsNoDoubleBooking | SimpleWMS/app/services/reservation.py:36-45 | an update to a free triple keeps every triple held at most once |
| ReservationService.DeleteKeepsNoDoubleBooking | SimpleWMS/app/services/reservation.py:48-53 | removing a record keeps every triple held at most once |
| ReservationService.ReservationTable.CreateReservation | SimpleWMS/app/services/reservation.py:21-30 | taken triple: `ValueError` with the conflict message and no change; free triple: exactly one record with the given fields and an unused id appended, the triple then taken; invariant kept |
| ReservationService.ReservationTable.UpdateReservation | SimpleWMS/app/services/reservation.py:32-46 | unknown id: none, no change; changed triple that is taken: `ValueError`, no change; otherwise that one record's fields overwritten, id kept, other rows untouched; invariant kept |
| ReservationService.ReservationTable.DeleteReservation | SimpleWMS/app/services/reservation.py:48-53 | removes exactly the record with that id and returns it, or none and no change; the id is then not found |
| SalleService.GetSalleByNom | SimpleWMS/app/services/salle.py:9-10 | none iff no room has the name; otherwise the first room in table order with it |
| SalleService.ListSalles | SimpleWMS/app/services/salle.py:12-16 | at most `limit` rooms, all from the table; with a filter every room has that `disponible` and the result is the page of the filtered table; without one, the plain page of the table |
| SalleService.WhereAll | SimpleWMS/app/services/salle.py:14 | a filter every room passes leaves the table as it is, so no filter means no filtering |
| SalleService.CreateKeepsDistinctNames | SimpleWMS/app/routers/salle.py:21-25 | appending a room whose name no room has keeps names pairwise distinct |
| SalleService.UpdateCanDuplicateName | SimpleWMS/app/services/salle.py:25-32 | two rooms with distinct names, the second updated to the first's name: names are no longer distinct |
| SalleService.DeleteKeepsDistinctNames | SimpleWMS/app/services/salle.py:34-39 | removing a room keeps distinct names distinct |
| SalleService.SalleTable.CreateSalle | SimpleWMS/app/services/salle.py:18-23 | exactly one room with the given fields and an unused id appended, the rest unchanged |
| SalleService.SalleTable.UpdateSalle | SimpleWMS/app/services/salle.py:25-32 | existing id: all four fields overwritten, id kept, others untouched, no name check; unknown id: none, no change |
| SalleService.SalleTable.DeleteSalle | SimpleWMS/app/services/salle.py:34-39 | removes exactly that room and returns it, or none and no change; ids stay unique and the id is then not found |
| SalleRouter.ListSalles | SimpleWMS/app/routers/salle.py:11-18 | always 200; for any parameters, the page `[skip, skip + limit)` of the table (no filter) or of the rooms whose `disponible` matches (filter), omitted ones meaning skip 0, limit 100: the first 100 rooms when all are omitted |
| SalleRouter.CreateSalle | SimpleWMS/app/routers/salle.py:20-25 | taken name: 400 "Une salle avec ce nom existe déjà." and no room added; otherwise the room is created; distinct names stay distinct |
| SalleRouter.GetSalle | SimpleWMS/app/routers/salle.py:27-32 | 404 "Salle non trouvée" iff no room has the id; otherwise that room |
| SalleRouter.UpdateSalle | SimpleWMS/app/routers/salle.py:34-39 | unknown id: 404 and no change; otherwise the overwritten room |
| SalleRouter.DeleteSalle | SimpleWMS/app/routers/salle.py:41-46 | unknown id: 404; otherwise the removed room, and a get of that id is then 404 |
| ReservationRouter.ListReservations | SimpleWMS/app/routers/reservation.py:11-13 | always 200; for any parameters, empty when skip is past the end, otherwise exactly `min(limit, |rows| - skip)` reservations, the i-th being row `skip + i`; omitted ones mean skip 0, limit 100 |
| ReservationRouter.CreateReservation | SimpleWMS/app/routers/reservation.py:15-20 | taken triple: 400 whose detail is the conflict message, no change; otherwise the stored record carrying exactly the submitted fields |
| ReservationRouter.GetReservation | SimpleWMS/app/routers/reservation.py:22-27 | 404 "Réservation non trouvée" iff no reservation has the id; otherwise that reservation |
| ReservationRouter.UpdateReservation | SimpleWMS/app/routers/reservation.py:29-37 | unknown id: 404; conflict: 400 with the conflict message (no change in both); otherwise the record with the new fields |
| ReservationRouter.DeleteReservation | SimpleWMS/app/routers/reservation.py:39-44 | unknown id: 404; otherwise the removed record, and a get of that id is then 404 |

## Left out

- The database session (`add`, `commit`, `refresh`, `query`) is replaced by the two in-memory tables; rows are listed in insertion order, which an SQL query without `ORDER BY` does not promise.
- The race between `check_availability` and the insert under concurrent requests is not modelled; the no-double-booking invariant is proved for one request at a time only.
- SalleService.SalleTable.DeleteSalle: what happens to the reservations of a deleted room is not modelled. The ORM's default handling of the relationship without a cascade sets their `salle_id` to NULL, or makes the commit fail if that column refuses NULL. `app/models/reservation.py` is not part of this model, so the model cannot tell which. The reservation table is left as it was.
- SalleRouter.DeleteSalle: the route's success case relies on the commit above succeeding. A commit refused for a room that still has reservations (a server error, with the room kept) is not modelled.
- No check that a reservation's room id names an existing room: the code performs none.
- Date and time parsing and JSON/pydantic validation are left out; dates and times are naturals compared only for equality, ids are naturals instead of UUID strings.
- Negative `skip` or `limit` values, which the routes accept and the database interprets, are not modelled: both are naturals.
- An explicit JSON `null` for `disponible` is not modelled; only an omitted flag (which becomes true) is.
- `app/schemas/reservation.py` and `app/models/reservation.py` are not part of this model: the reservation fields are those the routes' requests carry, and the update body is taken to carry all five of them, every one written by the `setattr` loop.
- The application wiring, table creation, the legacy warehouse routers and the unrelated shell/pickle/MD5 demonstration file are not modelled.
