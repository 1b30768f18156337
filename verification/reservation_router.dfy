/** The `/reservations` routes: a `ValueError` from the ledger becomes 400
    with the error's message as detail, an absent reservation becomes 404. */
module ReservationRouter {
  import opened Common
  import opened Models
  import opened Http
  import Service = ReservationService

  const NotFoundDetail: string := "Réservation non trouvée"

  /** `GET /reservations/`: omitted parameters default to skip 0 and
      limit 100. */
  function ListReservations(db: Service.ReservationTable, skip: Option<nat>, limit: Option<nat>)
    : (resp: Response<seq<Reservation>>)
    reads db
    ensures resp.Success?
    ensures |resp.body| <= limit.GetOr(DefaultLimit)
    ensures forall i :: 0 <= i < |resp.body| ==>
      skip.GetOr(DefaultSkip) + i < |db.rows| && resp.body[i] == db.rows[skip.GetOr(DefaultSkip) + i]
    ensures skip.GetOr(DefaultSkip) >= |db.rows| ==> resp.body == []
    ensures skip.GetOr(DefaultSkip) < |db.rows| ==>
      |resp.body| == Min(limit.GetOr(DefaultLimit), |db.rows| - skip.GetOr(DefaultSkip))
    ensures skip.None? && limit.None? ==> resp.body == db.rows[..Min(DefaultLimit, |db.rows|)]
  {
    Success(Service.ListReservations(db.rows, skip.GetOr(DefaultSkip), limit.GetOr(DefaultLimit)))
  }

  /** `POST /reservations/`: 400 with the conflict message when the triple is
      taken, and no change; otherwise the stored record, carrying exactly the
      submitted fields. */
  method CreateReservation(db: Service.ReservationTable, body: ReservationData) returns (resp: Response<Reservation>)
    modifies db
    ensures !Service.SlotFree(old(db.rows), body) ==>
      resp == HttpError(BadRequest, Service.ConflictMessage) && db.rows == old(db.rows)
    ensures Service.SlotFree(old(db.rows), body) ==>
      && resp.Success? && resp.body.data == body && resp.body.id !in Ids(old(db.rows), IdOfReservation)
      && db.rows == old(db.rows) + [resp.body]
    ensures old(db.Valid()) ==> db.Valid()
  {
    var r := db.CreateReservation(body);
    match r
    case ValueError(message) => resp := HttpError(BadRequest, message);
    case Ok(created) => resp := Success(created);
  }

  /** `GET /reservations/{id}`: the reservation, or 404. */
  function GetReservation(db: Service.ReservationTable, id: Id): (resp: Response<Reservation>)
    reads db
    ensures resp.HttpError? <==> forall i :: 0 <= i < |db.rows| ==> db.rows[i].id != id
    ensures resp.HttpError? ==> resp == HttpError(NotFound, NotFoundDetail)
    ensures resp.Success? ==> resp.body in db.rows && resp.body.id == id
  {
    match GetById(db.rows, IdOfReservation, id)
    case None => HttpError(NotFound, NotFoundDetail)
    case Some(r) => Success(r)
  }

  /** `PUT /reservations/{id}`: 404 for an unknown id, 400 with the conflict
      message when the triple changes to a taken one (no change in both
      cases); otherwise the record as overwritten. */
  method UpdateReservation(db: Service.ReservationTable, id: Id, body: ReservationData) returns (resp: Response<Reservation>)
    modifies db
    ensures IdIndex(old(db.rows), IdOfReservation, id) == |old(db.rows)| ==>
      resp == HttpError(NotFound, NotFoundDetail) && db.rows == old(db.rows)
    ensures var k := IdIndex(old(db.rows), IdOfReservation, id);
      k < |old(db.rows)| && body.Creneau() != old(db.rows)[k].data.Creneau() && !Service.SlotFree(old(db.rows), body) ==>
      resp == HttpError(BadRequest, Service.ConflictMessage) && db.rows == old(db.rows)
    ensures var k := IdIndex(old(db.rows), IdOfReservation, id);
      k < |old(db.rows)| && (body.Creneau() == old(db.rows)[k].data.Creneau() || Service.SlotFree(old(db.rows), body)) ==>
      resp == Success(Reservation(id, body)) && db.rows == old(db.rows)[k := Reservation(id, body)]
    ensures old(db.Valid()) ==> db.Valid()
  {
    var r := db.UpdateReservation(id, body);
    match r
    case ValueError(message) => resp := HttpError(BadRequest, message);
    case Ok(None) => resp := HttpError(NotFound, NotFoundDetail);
    case Ok(Some(updated)) => resp := Success(updated);
  }

  /** `DELETE /reservations/{id}`: 404 for an unknown id; otherwise the
      record is removed and returned, after which `GET /reservations/{id}`
      is 404. */
  method DeleteReservation(db: Service.ReservationTable, id: Id) returns (resp: Response<Reservation>)
    modifies db
    ensures IdIndex(old(db.rows), IdOfReservation, id) == |old(db.rows)| ==>
      resp == HttpError(NotFound, NotFoundDetail) && db.rows == old(db.rows)
    ensures var k := IdIndex(old(db.rows), IdOfReservation, id);
      k < |old(db.rows)| ==> resp == Success(old(db.rows)[k]) && db.rows == RemoveAt(old(db.rows), k)
    ensures old(db.Valid()) ==> db.Valid() && GetReservation(db, id) == HttpError(NotFound, NotFoundDetail)
  {
    var deleted := db.DeleteReservation(id);
    if deleted.None? {
      return HttpError(NotFound, NotFoundDetail);
    }
    resp := Success(deleted.value);
  }
}
