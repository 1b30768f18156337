/** The reservation ledger: queries over the reservation table, the table
    itself with its three mutating operations, and the no-double-booking
    invariant they keep. */
module ReservationService {
  import opened Common
  import opened Models

  /** Message of the `ValueError` raised when a slot is already taken. */
  const ConflictMessage: string := "Cette salle est déjà réservée à ce créneau"

  /** What a service call returns, or the `ValueError` it raises. */
  datatype Result<T> = Ok(value: T) | ValueError(message: string)

  /** No two reservations occupy the same (room, date, time) triple. */
  ghost predicate NoDoubleBooking(rows: seq<Reservation>) {
    forall i, j :: 0 <= i < |rows| && 0 <= j < |rows| && i != j ==>
      rows[i].data.Creneau() != rows[j].data.Creneau()
  }

  /** `list_reservations`: the rows `[skip, skip + limit)` in table order. */
  function ListReservations(rows: seq<Reservation>, skip: nat, limit: nat): (r: seq<Reservation>)
    ensures |r| <= limit
    ensures skip >= |rows| ==> r == []
    ensures skip < |rows| ==> |r| == Min(limit, |rows| - skip)
    ensures forall i :: 0 <= i < |r| ==> skip + i < |rows| && r[i] == rows[skip + i]
  {
    Page(rows, skip, limit)
  }

  /** `check_availability`: an equality lookup on the exact triple (not an
      interval overlap); the slot is free iff no stored reservation holds it. */
  function CheckAvailability(rows: seq<Reservation>, salleId: Id, date: Date, heure: Heure): (free: bool)
    ensures free <==> forall i :: 0 <= i < |rows| ==> rows[i].data.Creneau() != Slot(salleId, date, heure)
  {
    FirstIndex(rows, (r: Reservation) => r.data.Creneau() == Slot(salleId, date, heure)) == |rows|
  }

  /** Whether the slot of `data` is free in `rows`. */
  function SlotFree(rows: seq<Reservation>, data: ReservationData): bool {
    CheckAvailability(rows, data.salleId, data.date, data.heure)
  }

  /** Appending a reservation on a free slot keeps the ledger free of double
      bookings. */
  lemma CreateKeepsNoDoubleBooking(rows: seq<Reservation>, r: Reservation)
    requires NoDoubleBooking(rows)
    requires SlotFree(rows, r.data)
    ensures NoDoubleBooking(rows + [r])
  {
  }

  /** Once a reservation is stored, its slot is no longer available. */
  lemma StoredSlotIsTaken(rows: seq<Reservation>, k: nat)
    requires k < |rows|
    ensures !SlotFree(rows, rows[k].data)
  {
  }

  /** The reservation a create appends makes its slot unavailable. */
  lemma CreateTakesSlot(rows: seq<Reservation>, r: Reservation)
    ensures !SlotFree(rows + [r], r.data)
  {
    StoredSlotIsTaken(rows + [r], |rows|);
  }

  /** The record being updated cannot collide with itself: an update that
      keeps the triple skips the availability check (which that very record
      would fail, see StoredSlotIsTaken) and keeps the ledger free of double
      bookings. */
  lemma SameSlotUpdateKeepsNoDoubleBooking(rows: seq<Reservation>, k: nat, data: ReservationData)
    requires NoDoubleBooking(rows)
    requires k < |rows|
    requires data.Creneau() == rows[k].data.Creneau()
    ensures NoDoubleBooking(rows[k := Reservation(rows[k].id, data)])
  {
  }

  /** The update guard (triple changed and not available) refuses exactly
      when another reservation holds the new triple: in a ledger free of
      double bookings the record being updated never counts against itself. */
  lemma UpdateRefusedIffHeldByAnother(rows: seq<Reservation>, k: nat, data: ReservationData)
    requires NoDoubleBooking(rows)
    requires k < |rows|
    ensures (data.Creneau() != rows[k].data.Creneau() && !SlotFree(rows, data))
        <==> exists j :: 0 <= j < |rows| && j != k && rows[j].data.Creneau() == data.Creneau()
  {
  }

  /** An update whose new triple differs from the old one and was free keeps
      the ledger free of double bookings. */
  lemma MovedUpdateKeepsNoDoubleBooking(rows: seq<Reservation>, k: nat, data: ReservationData)
    requires NoDoubleBooking(rows)
    requires k < |rows|
    requires SlotFree(rows, data)
    ensures NoDoubleBooking(rows[k := Reservation(rows[k].id, data)])
  {
  }

  /** Deleting a row keeps the ledger free of double bookings. */
  lemma DeleteKeepsNoDoubleBooking(rows: seq<Reservation>, k: nat)
    requires k < |rows|
    ensures NoDoubleBooking(rows) ==> NoDoubleBooking(RemoveAt(rows, k))
  {
  }

  /** The reservation table, rows in insertion order. */
  class ReservationTable {
    var rows: seq<Reservation>

    /** Ids are unique and no slot is double-booked; the empty table has this
        property and every operation below keeps it. */
    ghost predicate Valid()
      reads this
    {
      UniqueIds(rows, IdOfReservation) && NoDoubleBooking(rows)
    }

    constructor ()
      ensures rows == [] && Valid()
    {
      rows := [];
    }

    /** `create_reservation`: refuses an occupied triple with a `ValueError`
        and otherwise appends one record under an unused id. */
    method CreateReservation(data: ReservationData) returns (r: Result<Reservation>)
      modifies this
      ensures !SlotFree(old(rows), data) ==> r == ValueError(ConflictMessage) && rows == old(rows)
      ensures SlotFree(old(rows), data) ==>
        && r.Ok? && r.value.data == data && r.value.id !in Ids(old(rows), IdOfReservation)
        && rows == old(rows) + [r.value]
      ensures r.Ok? ==> !SlotFree(rows, data)
      ensures old(Valid()) ==> Valid()
    {
      if !CheckAvailability(rows, data.salleId, data.date, data.heure) {
        return ValueError(ConflictMessage);
      }
      FreshIdExists(Ids(rows, IdOfReservation));
      var id: Id :| id !in Ids(rows, IdOfReservation);
      var created := Reservation(id, data);
      if Valid() {
        CreateKeepsNoDoubleBooking(rows, created);
        AppendKeepsUniqueIds(rows, IdOfReservation, created);
      }
      CreateTakesSlot(rows, created);
      rows := rows + [created];
      r := Ok(created);
    }

    /** `update_reservation`: none for an unknown id; a `ValueError` when the
        triple changes to one that is taken; otherwise every field of that one
        record is overwritten, its id kept. */
    method UpdateReservation(id: Id, data: ReservationData) returns (r: Result<Option<Reservation>>)
      modifies this
      ensures IdIndex(old(rows), IdOfReservation, id) == |old(rows)| ==> r == Ok(None) && rows == old(rows)
      ensures var k := IdIndex(old(rows), IdOfReservation, id);
        k < |old(rows)| && data.Creneau() != old(rows)[k].data.Creneau() && !SlotFree(old(rows), data) ==>
        r == ValueError(ConflictMessage) && rows == old(rows)
      ensures var k := IdIndex(old(rows), IdOfReservation, id);
        k < |old(rows)| && (data.Creneau() == old(rows)[k].data.Creneau() || SlotFree(old(rows), data)) ==>
        r == Ok(Some(Reservation(id, data))) && rows == old(rows)[k := Reservation(id, data)]
      ensures old(Valid()) ==> Valid()
    {
      var k := IdIndex(rows, IdOfReservation, id);
      if k == |rows| {
        return Ok(None);
      }
      var current := rows[k];
      if data.salleId != current.data.salleId || data.date != current.data.date || data.heure != current.data.heure {
        if !CheckAvailability(rows, data.salleId, data.date, data.heure) {
          return ValueError(ConflictMessage);
        }
        if Valid() {
          MovedUpdateKeepsNoDoubleBooking(rows, k, data);
        }
      } else if Valid() {
        SameSlotUpdateKeepsNoDoubleBooking(rows, k, data);
      }
      var updated := Reservation(current.id, data);
      if Valid() {
        OverwriteKeepsUniqueIds(rows, IdOfReservation, k, updated);
      }
      rows := rows[k := updated];
      r := Ok(Some(updated));
    }

    /** `delete_reservation`: removes the record with that id and returns it,
        or returns none and changes nothing. */
    method DeleteReservation(id: Id) returns (r: Option<Reservation>)
      modifies this
      ensures IdIndex(old(rows), IdOfReservation, id) == |old(rows)| ==> r == None && rows == old(rows)
      ensures var k := IdIndex(old(rows), IdOfReservation, id);
        k < |old(rows)| ==> r == Some(old(rows)[k]) && rows == RemoveAt(old(rows), k)
      ensures old(Valid()) ==> Valid() && GetById(rows, IdOfReservation, id).None?
    {
      var k := IdIndex(rows, IdOfReservation, id);
      if k == |rows| {
        return None;
      }
      r := Some(rows[k]);
      RemoveKeepsUniqueIds(rows, IdOfReservation, k);
      DeleteKeepsNoDoubleBooking(rows, k);
      rows := RemoveAt(rows, k);
    }
  }
}
