/** Client code that drives the routes through the request sequences of the
    project's own test suite; every assertion follows from the contracts
    alone. */
module Scenarios {
  import opened Common
  import opened Models
  import opened Http
  import SalleService
  import ReservationService
  import SalleRouter
  import ReservationRouter

  /** A room is created, a second room with the same name is refused, and a
      rename through update duplicates the name anyway. */
  method RoomNames() {
    var salles := new SalleService.SalleTable();
    var a := SalleBody("Salle A", 10, "X", None);
    var b := SalleBody("Salle B", 10, "Y", Some(false));
    var r1 := SalleRouter.CreateSalle(salles, a);
    assert r1.Success? && r1.body.data.disponible;
    var r2 := SalleRouter.CreateSalle(salles, a);
    assert salles.rows[0].data.nom == a.nom;
    assert r2 == HttpError(BadRequest, SalleRouter.NomTakenDetail);
    var r3 := SalleRouter.CreateSalle(salles, b);
    assert r3.Success? && |salles.rows| == 2;
    assert SalleService.DistinctNames(salles.rows);
    assert salles.rows[1].id == r3.body.id;
    var r4 := SalleRouter.UpdateSalle(salles, r3.body.id, a);
    assert r4.Success?;
    assert salles.rows[0].data.nom == salles.rows[1].data.nom;
    assert !SalleService.DistinctNames(salles.rows);
    var only := SalleRouter.ListSalles(salles, None, None, Some(true));
    assert forall i :: 0 <= i < |only.body| ==> only.body[i].data.disponible;
  }

  /** The same triple cannot be booked twice; an update onto a taken slot is
      refused, onto a free one it succeeds; a deleted reservation is 404. */
  method DoubleBooking(salleId: Id) {
    var ledger := new ReservationService.ReservationTable();
    var first := ReservationData(salleId, 20103, 50400, "a@x.com", None);
    var r1 := ReservationRouter.CreateReservation(ledger, first);
    assert r1.Success?;
    var again := ReservationData(salleId, 20103, 50400, "b@x.com", None);
    var r2 := ReservationRouter.CreateReservation(ledger, again);
    assert ledger.rows[0].data.Creneau() == again.Creneau();
    assert r2 == HttpError(BadRequest, ReservationService.ConflictMessage);
    var second := ReservationData(salleId, 20103, 36000, "c@x.com", None);
    var r3 := ReservationRouter.CreateReservation(ledger, second);
    assert r3.Success? && |ledger.rows| == 2;
    var moved := ReservationData(salleId, 20103, 36000, "a@x.com", Some("Réunion"));
    var r4 := ReservationRouter.UpdateReservation(ledger, r1.body.id, moved);
    assert ledger.rows[1].data.Creneau() == moved.Creneau();
    assert r4 == HttpError(BadRequest, ReservationService.ConflictMessage);
    var free := ReservationData(salleId, 20103, 54000, "a@x.com", Some("Réunion"));
    var r5 := ReservationRouter.UpdateReservation(ledger, r1.body.id, free);
    assert r5.Success? && r5.body.data.heure == 54000 && r5.body.data.commentaire == Some("Réunion");
    var r6 := ReservationRouter.DeleteReservation(ledger, r1.body.id);
    assert r6.Success?;
    assert ReservationRouter.GetReservation(ledger, r1.body.id).HttpError?;
  }
}
