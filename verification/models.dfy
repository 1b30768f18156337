/** The stored records of the two tables and the request bodies that carry
    their writable fields. */
module Models {
  import opened Common

  /** A calendar date and a time of day; the ledger only ever compares them
      for equality, so day numbers and second counts stand for both. */
  type Date = nat
  type Heure = nat

  /** Writable fields of a room: the body of a create or an update request. */
  datatype SalleData = SalleData(nom: string, capacite: int, localisation: string, disponible: bool)

  /** A stored room: its identifier and its writable fields. */
  datatype Salle = Salle(id: Id, data: SalleData)

  /** The identifier of a room, as a function value for the id-table helpers. */
  function IdOfSalle(s: Salle): Id {
    s.id
  }

  /** Availability of a room when the request body leaves it out. */
  const DefaultDisponible := true

  /** Builds a room body from the four request fields, `disponible` being
      optional: an omitted flag means the room is available. */
  function SalleBody(nom: string, capacite: int, localisation: string, disponible: Option<bool>): (d: SalleData)
    ensures d.nom == nom && d.capacite == capacite && d.localisation == localisation
    ensures d.disponible <==> disponible != Some(false)
  {
    SalleData(nom, capacite, localisation, disponible.GetOr(DefaultDisponible))
  }

  /** The (room, date, time) triple a reservation occupies. */
  datatype Slot = Slot(salleId: Id, date: Date, heure: Heure)

  /** Writable fields of a reservation: the body of a create or an update
      request. `commentaire` is optional. */
  datatype ReservationData = ReservationData(
    salleId: Id, date: Date, heure: Heure, utilisateur: string, commentaire: Option<string>)
  {
    /** The slot ("créneau") this reservation occupies. */
    function Creneau(): Slot {
      Slot(salleId, date, heure)
    }
  }

  /** A stored reservation: its identifier and its writable fields. */
  datatype Reservation = Reservation(id: Id, data: ReservationData)

  /** The identifier of a reservation, as a function value for the id-table
      helpers. */
  function IdOfReservation(r: Reservation): Id {
    r.id
  }
}
