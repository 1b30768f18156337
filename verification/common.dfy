/** Table-level building blocks shared by the room registry and the
    reservation ledger: the optional value a `.first()` query returns, the
    first-match search, the `filter` of a query, the `offset(...).limit(...)`
    page, the removal of one row, and the supply of fresh identifiers. */
module Common {

  /** Identifiers are opaque; only equality and freshness matter. */
  type Id = nat

  datatype Option<T> = None | Some(value: T) {
    function GetOr(default: T): T {
      match this
      case Some(v) => v
      case None => default
    }
  }

  /** Position of the first row, in table order, that satisfies `p`;
      `|rows|` when no row does. */
  function FirstIndex<T>(rows: seq<T>, p: T -> bool): (k: nat)
    ensures k <= |rows|
    ensures k < |rows| ==> p(rows[k])
    ensures forall j :: 0 <= j < k ==> !p(rows[j])
  {
    if |rows| == 0 then 0
    else if p(rows[0]) then 0
    else 1 + FirstIndex(rows[1..], p)
  }

  /** The rows that satisfy `p`, in table order. */
  function Where<T>(rows: seq<T>, p: T -> bool): (r: seq<T>)
    ensures |r| <= |rows|
    ensures forall i :: 0 <= i < |r| ==> p(r[i]) && r[i] in rows
    ensures forall i :: 0 <= i < |rows| && p(rows[i]) ==> rows[i] in r
  {
    if |rows| == 0 then []
    else
      var rest := Where(rows[1..], p);
      assert forall i :: 1 <= i < |rows| ==> rows[i] == rows[1..][i - 1];
      if p(rows[0]) then [rows[0]] + rest else rest
  }

  /** Filtering a concatenation filters each part and keeps them in order:
      the filtered table lists rows in the table's own order. */
  lemma {:induction false} WhereAppend<T>(a: seq<T>, b: seq<T>, p: T -> bool)
    ensures Where(a + b, p) == Where(a, p) + Where(b, p)
  {
    if |a| == 0 {
      assert a + b == b;
    } else {
      assert (a + b)[1..] == a[1..] + b;
      WhereAppend(a[1..], b, p);
    }
  }

  function Min(x: nat, y: nat): nat {
    if x <= y then x else y
  }

  /** `offset(skip).limit(limit)`: drop the first `skip` rows, then keep at
      most `limit` of the rest. */
  function Page<T>(rows: seq<T>, skip: nat, limit: nat): (r: seq<T>)
    ensures |r| <= limit
    ensures skip >= |rows| ==> r == []
    ensures skip < |rows| ==> |r| == Min(limit, |rows| - skip)
    ensures forall i :: 0 <= i < |r| ==> skip + i < |rows| && r[i] == rows[skip + i]
  {
    if skip >= |rows| then [] else rows[skip..skip + Min(limit, |rows| - skip)]
  }

  /** The table with its row at position `k` deleted. */
  function RemoveAt<T>(rows: seq<T>, k: nat): (r: seq<T>)
    requires k < |rows|
    ensures |r| == |rows| - 1
    ensures forall i :: 0 <= i < k ==> r[i] == rows[i]
    ensures forall i :: k <= i < |r| ==> r[i] == rows[i + 1]
  {
    rows[..k] + rows[k + 1..]
  }

  /** Position of the first row whose identifier, read through `idOf`, is
      `id`; `|rows|` if no row has it. */
  function IdIndex<T>(rows: seq<T>, idOf: T -> Id, id: Id): (k: nat)
    ensures k <= |rows|
    ensures k < |rows| ==> idOf(rows[k]) == id
    ensures forall j :: 0 <= j < k ==> idOf(rows[j]) != id
  {
    FirstIndex(rows, (r: T) => idOf(r) == id)
  }

  /** `query.filter(id == ...).first()`: none iff no row has the identifier,
      otherwise the first row, in table order, that has it. */
  function GetById<T>(rows: seq<T>, idOf: T -> Id, id: Id): (r: Option<T>)
    ensures r.None? <==> forall i :: 0 <= i < |rows| ==> idOf(rows[i]) != id
    ensures r.Some? ==> exists k :: 0 <= k < |rows| && rows[k] == r.value && idOf(r.value) == id &&
                                    forall j :: 0 <= j < k ==> idOf(rows[j]) != id
  {
    var k := IdIndex(rows, idOf, id);
    if k < |rows| then Some(rows[k]) else None
  }

  /** The identifiers in use. */
  function Ids<T>(rows: seq<T>, idOf: T -> Id): set<Id> {
    set i | 0 <= i < |rows| :: idOf(rows[i])
  }

  /** No two rows share an identifier. */
  ghost predicate UniqueIds<T>(rows: seq<T>, idOf: T -> Id) {
    forall i, j :: 0 <= i < |rows| && 0 <= j < |rows| && i != j ==> idOf(rows[i]) != idOf(rows[j])
  }

  /** Appending a row under an unused identifier keeps identifiers unique. */
  lemma AppendKeepsUniqueIds<T>(rows: seq<T>, idOf: T -> Id, r: T)
    requires UniqueIds(rows, idOf)
    requires idOf(r) !in Ids(rows, idOf)
    ensures UniqueIds(rows + [r], idOf)
  {
  }

  /** Overwriting one row with a row of the same identifier keeps
      identifiers unique. */
  lemma OverwriteKeepsUniqueIds<T>(rows: seq<T>, idOf: T -> Id, k: nat, r: T)
    requires UniqueIds(rows, idOf)
    requires k < |rows|
    requires idOf(r) == idOf(rows[k])
    ensures UniqueIds(rows[k := r], idOf)
  {
  }

  /** Removing a row keeps identifiers unique, and, when they were unique,
      the removed identifier is no longer found. */
  lemma RemoveKeepsUniqueIds<T>(rows: seq<T>, idOf: T -> Id, k: nat)
    requires k < |rows|
    ensures UniqueIds(rows, idOf) ==> UniqueIds(RemoveAt(rows, k), idOf)
    ensures UniqueIds(rows, idOf) ==> GetById(RemoveAt(rows, k), idOf, idOf(rows[k])).None?
  {
  }

  /** A strict upper bound of a finite set of identifiers. */
  ghost function Bound(ids: set<Id>): (b: Id)
    ensures forall x :: x in ids ==> x < b
    decreases ids
  {
    if ids == {} then 0
    else
      var x :| x in ids;
      var rest := Bound(ids - {x});
      assert forall y :: y in ids ==> y == x || y in ids - {x};
      if x < rest then rest else x + 1
  }

  /** However many identifiers are in use, an unused one exists: this is
      what a generated UUID stands for in the model. */
  lemma FreshIdExists(ids: set<Id>)
    ensures exists id: Id :: id !in ids
  {
    var b := Bound(ids);
    assert b !in ids;
  }
}
