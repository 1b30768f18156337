/** The `/salles` routes: the duplicate-name guard of room creation and the
    mapping of an absent room to 404. */
module SalleRouter {
  import opened Common
  import opened Models
  import opened Http
  import Service = SalleService

  const NomTakenDetail: string := "Une salle avec ce nom existe déjà."
  const NotFoundDetail: string := "Salle non trouvée"

  /** `GET /salles/`: omitted parameters default to skip 0, limit 100 and no
      availability filter. */
  function ListSalles(db: Service.SalleTable, skip: Option<nat>, limit: Option<nat>, disponible: Option<bool>)
    : (resp: Response<seq<Salle>>)
    reads db
    ensures resp.Success?
    ensures |resp.body| <= limit.GetOr(DefaultLimit)
    ensures forall i :: 0 <= i < |resp.body| ==> resp.body[i] in db.rows
    ensures disponible.Some? ==> forall i :: 0 <= i < |resp.body| ==> resp.body[i].data.disponible == disponible.value
    ensures disponible.None? ==> resp.body == Page(db.rows, skip.GetOr(DefaultSkip), limit.GetOr(DefaultLimit))
    ensures disponible.Some? ==>
      resp.body == Page(Where(db.rows, Service.Matches(disponible)), skip.GetOr(DefaultSkip), limit.GetOr(DefaultLimit))
    ensures skip.None? && limit.None? && disponible.None? ==> resp.body == db.rows[..Min(DefaultLimit, |db.rows|)]
  {
    Success(Service.ListSalles(db.rows, skip.GetOr(DefaultSkip), limit.GetOr(DefaultLimit), disponible))
  }

  /** `POST /salles/`: 400 when a room already has that name, and then no
      room is added; otherwise the room is created and returned. */
  method CreateSalle(db: Service.SalleTable, body: SalleData) returns (resp: Response<Salle>)
    modifies db
    ensures Service.GetSalleByNom(old(db.rows), body.nom).Some? ==>
      resp == HttpError(BadRequest, NomTakenDetail) && db.rows == old(db.rows)
    ensures Service.GetSalleByNom(old(db.rows), body.nom).None? ==>
      && resp.Success? && resp.body.data == body && resp.body.id !in Ids(old(db.rows), IdOfSalle)
      && db.rows == old(db.rows) + [resp.body]
    ensures old(Service.DistinctNames(db.rows)) ==> Service.DistinctNames(db.rows)
    ensures old(db.Valid()) ==> db.Valid()
  {
    var existing := Service.GetSalleByNom(db.rows, body.nom);
    if existing.Some? {
      return HttpError(BadRequest, NomTakenDetail);
    }
    ghost var before := db.rows;
    var created := db.CreateSalle(body);
    if Service.DistinctNames(before) {
      Service.CreateKeepsDistinctNames(before, created);
    }
    resp := Success(created);
  }

  /** `GET /salles/{id}`: the room, or 404. */
  function GetSalle(db: Service.SalleTable, id: Id): (resp: Response<Salle>)
    reads db
    ensures resp.HttpError? <==> forall i :: 0 <= i < |db.rows| ==> db.rows[i].id != id
    ensures resp.HttpError? ==> resp == HttpError(NotFound, NotFoundDetail)
    ensures resp.Success? ==> resp.body in db.rows && resp.body.id == id
  {
    match GetById(db.rows, IdOfSalle, id)
    case None => HttpError(NotFound, NotFoundDetail)
    case Some(s) => Success(s)
  }

  /** `PUT /salles/{id}`: 404 and no change for an unknown id; otherwise the
      room's fields are replaced, whatever the other rooms are called. */
  method UpdateSalle(db: Service.SalleTable, id: Id, body: SalleData) returns (resp: Response<Salle>)
    modifies db
    ensures IdIndex(old(db.rows), IdOfSalle, id) == |old(db.rows)| ==>
      resp == HttpError(NotFound, NotFoundDetail) && db.rows == old(db.rows)
    ensures var k := IdIndex(old(db.rows), IdOfSalle, id);
      k < |old(db.rows)| ==> resp == Success(Salle(id, body)) && db.rows == old(db.rows)[k := Salle(id, body)]
    ensures old(db.Valid()) ==> db.Valid()
  {
    var updated := db.UpdateSalle(id, body);
    if updated.None? {
      return HttpError(NotFound, NotFoundDetail);
    }
    resp := Success(updated.value);
  }

  /** `DELETE /salles/{id}`: 404 for an unknown id; otherwise the room is
      removed and returned, after which `GET /salles/{id}` is 404. */
  method DeleteSalle(db: Service.SalleTable, id: Id) returns (resp: Response<Salle>)
    modifies db
    ensures IdIndex(old(db.rows), IdOfSalle, id) == |old(db.rows)| ==>
      resp == HttpError(NotFound, NotFoundDetail) && db.rows == old(db.rows)
    ensures var k := IdIndex(old(db.rows), IdOfSalle, id);
      k < |old(db.rows)| ==> resp == Success(old(db.rows)[k]) && db.rows == RemoveAt(old(db.rows), k)
    ensures old(db.Valid()) ==> db.Valid() && GetSalle(db, id) == HttpError(NotFound, NotFoundDetail)
  {
    var deleted := db.DeleteSalle(id);
    if deleted.None? {
      return HttpError(NotFound, NotFoundDetail);
    }
    resp := Success(deleted.value);
  }
}
