/** The room registry: queries over the room table and the table itself with
    its three mutating operations. The registry does not enforce unique
    names; only the create route does (see SalleRouter). */
module SalleService {
  import opened Common
  import opened Models

  /** No two rooms share a name. */
  ghost predicate DistinctNames(rows: seq<Salle>) {
    forall i, j :: 0 <= i < |rows| && 0 <= j < |rows| && i != j ==> rows[i].data.nom != rows[j].data.nom
  }

  /** `get_salle_by_nom`: the first room, in table order, with that name, or
      none. */
  function GetSalleByNom(rows: seq<Salle>, nom: string): (r: Option<Salle>)
    ensures r.None? <==> forall i :: 0 <= i < |rows| ==> rows[i].data.nom != nom
    ensures r.Some? ==> exists k :: 0 <= k < |rows| && rows[k] == r.value && r.value.data.nom == nom &&
                                    forall j :: 0 <= j < k ==> rows[j].data.nom != nom
  {
    var k := FirstIndex(rows, (s: Salle) => s.data.nom == nom);
    if k < |rows| then Some(rows[k]) else None
  }

  /** The availability filter of `list_salles`: none keeps every room. */
  function Matches(disponible: Option<bool>): Salle -> bool {
    (s: Salle) => disponible.None? || s.data.disponible == disponible.value
  }

  /** `list_salles`: the rooms that pass the optional availability filter,
      then the page `[skip, skip + limit)` of them, in table order. */
  function ListSalles(rows: seq<Salle>, skip: nat, limit: nat, disponible: Option<bool>): (r: seq<Salle>)
    ensures |r| <= limit
    ensures forall i :: 0 <= i < |r| ==> r[i] in rows
    ensures disponible.Some? ==> forall i :: 0 <= i < |r| ==> r[i].data.disponible == disponible.value
    ensures disponible.None? ==> r == Page(rows, skip, limit)
    ensures disponible.Some? ==> r == Page(Where(rows, Matches(disponible)), skip, limit)
  {
    var filtered := Where(rows, Matches(disponible));
    assert disponible.None? ==> filtered == rows by {
      if disponible.None? {
        WhereAll(rows, Matches(disponible));
      }
    }
    Page(filtered, skip, limit)
  }

  /** A filter every row passes keeps the whole table. */
  lemma {:induction false} WhereAll(rows: seq<Salle>, p: Salle -> bool)
    requires forall i :: 0 <= i < |rows| ==> p(rows[i])
    ensures Where(rows, p) == rows
  {
    if |rows| > 0 {
      WhereAll(rows[1..], p);
    }
  }

  /** Appending a room whose name no room has keeps names distinct: a run of
      creates through the guarded route never duplicates a name. */
  lemma CreateKeepsDistinctNames(rows: seq<Salle>, s: Salle)
    requires DistinctNames(rows)
    requires GetSalleByNom(rows, s.data.nom).None?
    ensures DistinctNames(rows + [s])
  {
  }

  /** An update may give a room the name another room already has: two
      rooms with distinct names, the second renamed to the first's name. */
  lemma UpdateCanDuplicateName(a: SalleData, b: SalleData)
    requires a.nom != b.nom
    ensures var rows := [Salle(0, a), Salle(1, b)];
      && DistinctNames(rows)
      && !DistinctNames(rows[1 := Salle(1, SalleData(a.nom, b.capacite, b.localisation, b.disponible))])
  {
    var rows' := [Salle(0, a), Salle(1, b)][1 := Salle(1, SalleData(a.nom, b.capacite, b.localisation, b.disponible))];
    assert rows'[0].data.nom == rows'[1].data.nom;
  }

  /** Deleting a row keeps distinct names distinct. */
  lemma DeleteKeepsDistinctNames(rows: seq<Salle>, k: nat)
    requires k < |rows|
    ensures DistinctNames(rows) ==> DistinctNames(RemoveAt(rows, k))
  {
  }

  /** The room table, rows in insertion order. */
  class SalleTable {
    var rows: seq<Salle>

    /** Room ids are unique; the empty table has this property and every
        operation below keeps it. Names are not part of it: `UpdateSalle`
        may duplicate one. */
    ghost predicate Valid()
      reads this
    {
      UniqueIds(rows, IdOfSalle)
    }

    constructor ()
      ensures rows == [] && Valid()
    {
      rows := [];
    }

    /** `create_salle`: appends one room with the given fields under an
        unused id, without looking at the other rooms' names. */
    method CreateSalle(data: SalleData) returns (s: Salle)
      modifies this
      ensures s.data == data && s.id !in Ids(old(rows), IdOfSalle)
      ensures rows == old(rows) + [s]
      ensures old(Valid()) ==> Valid()
    {
      FreshIdExists(Ids(rows, IdOfSalle));
      var id: Id :| id !in Ids(rows, IdOfSalle);
      s := Salle(id, data);
      if Valid() {
        AppendKeepsUniqueIds(rows, IdOfSalle, s);
      }
      rows := rows + [s];
    }

    /** `update_salle`: overwrites `nom`, `capacite`, `localisation` and
        `disponible` of the room with that id, keeping the id and never
        consulting other rooms' names; none and no change for an unknown id. */
    method UpdateSalle(id: Id, data: SalleData) returns (r: Option<Salle>)
      modifies this
      ensures IdIndex(old(rows), IdOfSalle, id) == |old(rows)| ==> r == None && rows == old(rows)
      ensures var k := IdIndex(old(rows), IdOfSalle, id);
        k < |old(rows)| ==> r == Some(Salle(id, data)) && rows == old(rows)[k := Salle(id, data)]
      ensures old(Valid()) ==> Valid()
    {
      var k := IdIndex(rows, IdOfSalle, id);
      if k == |rows| {
        return None;
      }
      var updated := Salle(rows[k].id, data);
      if Valid() {
        OverwriteKeepsUniqueIds(rows, IdOfSalle, k, updated);
      }
      rows := rows[k := updated];
      r := Some(updated);
    }

    /** `delete_salle`: removes the room with that id and returns it, or
        returns none and changes nothing. */
    method DeleteSalle(id: Id) returns (r: Option<Salle>)
      modifies this
      ensures IdIndex(old(rows), IdOfSalle, id) == |old(rows)| ==> r == None && rows == old(rows)
      ensures var k := IdIndex(old(rows), IdOfSalle, id);
        k < |old(rows)| ==> r == Some(old(rows)[k]) && rows == RemoveAt(old(rows), k)
      ensures old(Valid()) ==> Valid() && GetById(rows, IdOfSalle, id).None?
      ensures old(DistinctNames(rows)) ==> DistinctNames(rows)
    {
      var k := IdIndex(rows, IdOfSalle, id);
      if k == |rows| {
        return None;
      }
      r := Some(rows[k]);
      RemoveKeepsUniqueIds(rows, IdOfSalle, k);
      DeleteKeepsDistinctNames(rows, k);
      rows := RemoveAt(rows, k);
    }
  }
}
