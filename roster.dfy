/** The `Player` table (app.py) as a sequence of records in id order, and the
    specification functions the store's operations are proved against. */
module Roster {

  datatype Option<T> = None | Some(value: T)

  /** Why a store operation produced no result: `get_or_404` found no such id,
      or a NOT NULL column (`player_name`, `job`) was given no value. */
  datatype StoreError = NotFound | NotNull

  datatype Result<T> = Success(value: T) | Failure(error: StoreError)

  /** The eight job names, in the order the dashboard lists them. */
  const JOBS: seq<string> := ["鐵衣", "血河", "碎夢", "神相", "九靈", "玄機", "素問", "龍吟"]

  datatype Player = Player(
    id: int,
    name: string,
    job: string,
    canFight: bool,
    groupName: Option<string>,
    teamName: Option<string>,
    roleNote: Option<string>)

  /** The table invariant: ids are positive and strictly increasing in the
      order rows are listed, hence unique. */
  ghost predicate IdsAscending(ps: seq<Player>) {
    && (forall i :: 0 <= i < |ps| ==> ps[i].id >= 1)
    && (forall i, j :: 0 <= i < j < |ps| ==> ps[i].id < ps[j].id)
  }

  /** The id SQLite gives the next inserted row: one more than the largest
      id present, or 1 in an empty table. */
  function NextId(ps: seq<Player>): (id: int)
    requires IdsAscending(ps)
    ensures id >= 1
    ensures forall i :: 0 <= i < |ps| ==> ps[i].id < id
  {
    if ps == [] then 1 else ps[|ps| - 1].id + 1
  }

  /** Appending a row that carries the next id keeps the invariant. */
  lemma AppendKeepsIdsAscending(ps: seq<Player>, p: Player)
    requires IdsAscending(ps) && p.id == NextId(ps)
    ensures IdsAscending(ps + [p])
  {
  }

  /** Where the row with this id sits, if anywhere (`get_or_404`). */
  function Position(ps: seq<Player>, id: int): (k: Option<nat>)
    ensures k.Some? ==> k.value < |ps| && ps[k.value].id == id
    ensures k.Some? ==> forall i :: 0 <= i < k.value ==> ps[i].id != id
    ensures k.None? <==> forall i :: 0 <= i < |ps| ==> ps[i].id != id
  {
    if ps == [] then None
    else if ps[0].id == id then Some(0)
    else match Position(ps[1..], id)
      case None => None
      case Some(k) => Some(k + 1)
  }

  function Find(ps: seq<Player>, id: int): (r: Option<Player>)
    ensures r.Some? ==> r.value.id == id
    ensures r.None? <==> forall i :: 0 <= i < |ps| ==> ps[i].id != id
  {
    match Position(ps, id)
    case None => None
    case Some(k) => Some(ps[k])
  }

  /** In a table satisfying the invariant, the row found is the only one with
      that id. */
  lemma PositionUnique(ps: seq<Player>, id: int, k: nat)
    requires IdsAscending(ps) && k < |ps| && ps[k].id == id
    ensures Position(ps, id) == Some(k)
  {
  }

  // ---------------------------------------------------------------- edits

  /** The two in-place edits of one row: `toggle_status` and `update_group`. */
  datatype Edit = Toggle | Assign(groupName: Option<string>, teamName: Option<string>, roleNote: Option<string>)

  function ApplyEdit(p: Player, e: Edit): Player {
    match e
    case Toggle => p.(canFight := !p.canFight)
    case Assign(g, t, n) => p.(groupName := g, teamName := t, roleNote := n)
  }

  /** The table after applying `e` to the row(s) with id `id`: every row
      keeps its place, the matching rows are edited and the others are not. */
  function Modified(ps: seq<Player>, id: int, e: Edit): (r: seq<Player>)
    ensures |r| == |ps|
    ensures forall i :: 0 <= i < |ps| ==> r[i] == if ps[i].id == id then ApplyEdit(ps[i], e) else ps[i]
  {
    if ps == [] then []
    else
      [if ps[0].id == id then ApplyEdit(ps[0], e) else ps[0]] + Modified(ps[1..], id, e)
  }

  /** The table without the row(s) with id `id`. */
  function Without(ps: seq<Player>, id: int): (r: seq<Player>)
    ensures |r| <= |ps|
    ensures forall i :: 0 <= i < |r| ==> r[i].id != id
  {
    if ps == [] then []
    else if ps[0].id == id then Without(ps[1..], id)
    else [ps[0]] + Without(ps[1..], id)
  }

  /** Under the invariant, no other row shares a row's id. */
  lemma OnlyAt(ps: seq<Player>, k: nat)
    requires IdsAscending(ps) && k < |ps|
    ensures forall i :: 0 <= i < |ps| && i != k ==> ps[i].id != ps[k].id
  {
  }

  /** Editing one row in place is the table-wide edit, when ids are unique. */
  lemma ModifiedAt(ps: seq<Player>, id: int, e: Edit, k: nat)
    requires IdsAscending(ps) && k < |ps| && ps[k].id == id
    ensures Modified(ps, id, e) == ps[k := ApplyEdit(ps[k], e)]
  {
    OnlyAt(ps, k);
  }

  lemma ModifiedNowhere(ps: seq<Player>, id: int, e: Edit)
    requires forall i :: 0 <= i < |ps| ==> ps[i].id != id
    ensures Modified(ps, id, e) == ps
  {
  }

  /** Removing the only row with an id is cutting it out of the table. */
  lemma {:induction false} WithoutOnly(ps: seq<Player>, id: int, k: nat)
    requires k < |ps| && ps[k].id == id
    requires forall i :: 0 <= i < |ps| && i != k ==> ps[i].id != id
    ensures Without(ps, id) == ps[..k] + ps[k + 1..]
  {
    var tail := ps[1..];
    if k == 0 {
      WithoutNowhere(tail, id);
    } else {
      forall i | 0 <= i < |tail| && i != k - 1 ensures tail[i].id != id {
        assert tail[i] == ps[i + 1];
      }
      WithoutOnly(tail, id, k - 1);
      assert ps[..k] + ps[k + 1..] == [ps[0]] + (tail[..k - 1] + tail[k..]);
    }
  }

  /** Removing one row in place is the table-wide removal, when ids are unique. */
  lemma WithoutAt(ps: seq<Player>, id: int, k: nat)
    requires IdsAscending(ps) && k < |ps| && ps[k].id == id
    ensures Without(ps, id) == ps[..k] + ps[k + 1..]
  {
    OnlyAt(ps, k);
    WithoutOnly(ps, id, k);
  }

  lemma {:induction false} WithoutNowhere(ps: seq<Player>, id: int)
    requires forall i :: 0 <= i < |ps| ==> ps[i].id != id
    ensures Without(ps, id) == ps
  {
    if ps != [] {
      WithoutNowhere(ps[1..], id);
      assert [ps[0]] + ps[1..] == ps;
    }
  }

  lemma ModifiedKeepsIdsAscending(ps: seq<Player>, id: int, e: Edit)
    requires IdsAscending(ps)
    ensures IdsAscending(Modified(ps, id, e))
  {
  }

  lemma RemovalKeepsIdsAscending(ps: seq<Player>, k: nat)
    requires IdsAscending(ps) && k < |ps|
    ensures IdsAscending(ps[..k] + ps[k + 1..])
  {
    var r := ps[..k] + ps[k + 1..];
    forall i, j | 0 <= i < j < |r| ensures r[i].id < r[j].id {
      var i' := if i < k then i else i + 1;
      var j' := if j < k then j else j + 1;
      assert r[i] == ps[i'] && r[j] == ps[j'];
    }
  }

  // ------------------------------------------------------------ properties

  /** Toggling a player twice gives back the original table. */
  lemma ToggleTwice(ps: seq<Player>, id: int)
    ensures Modified(Modified(ps, id, Toggle), id, Toggle) == ps
  {
    var once := Modified(ps, id, Toggle);
    assert forall i :: 0 <= i < |ps| ==> once[i].id == ps[i].id;
  }

  /** After an edit the player carries the edited fields; editing an absent
      id changes nothing. */
  lemma EditFindsEdited(ps: seq<Player>, id: int, e: Edit)
    requires IdsAscending(ps)
    ensures Find(ps, id).Some? ==> Find(Modified(ps, id, e), id) == Some(ApplyEdit(Find(ps, id).value, e))
    ensures Find(ps, id).None? ==> Modified(ps, id, e) == ps
  {
    match Position(ps, id)
    case None =>
      ModifiedNowhere(ps, id, e);
    case Some(k) =>
      ModifiedAt(ps, id, e, k);
      ModifiedKeepsIdsAscending(ps, id, e);
      PositionUnique(Modified(ps, id, e), id, k);
  }

  /** An edit leaves every other player exactly as it was. */
  lemma EditLeavesOthers(ps: seq<Player>, id: int, e: Edit, other: int)
    requires IdsAscending(ps) && other != id
    ensures Find(Modified(ps, id, e), other) == Find(ps, other)
  {
    var r := Modified(ps, id, e);
    match Position(ps, other)
    case None =>
      assert forall i :: 0 <= i < |r| ==> r[i].id != other;
    case Some(j) =>
      match Position(ps, id)
      case None =>
        ModifiedNowhere(ps, id, e);
      case Some(k) =>
        ModifiedAt(ps, id, e, k);
        assert r[j] == ps[j];
        ModifiedKeepsIdsAscending(ps, id, e);
        PositionUnique(r, other, j);
  }

  /** Cutting row `k` out shifts the later rows down by one. */
  lemma CutShifts(ps: seq<Player>, k: nat, r: seq<Player>)
    requires k < |ps| && r == ps[..k] + ps[k + 1..]
    ensures |r| == |ps| - 1
    ensures forall i :: 0 <= i < k ==> r[i] == ps[i]
    ensures forall i :: k <= i < |r| ==> r[i] == ps[i + 1]
  {
  }

  /** Cutting out one row leaves every other id's lookup as it was. */
  lemma FindAfterCut(ps: seq<Player>, k: nat, other: int)
    requires IdsAscending(ps) && k < |ps| && ps[k].id != other
    ensures Find(ps[..k] + ps[k + 1..], other) == Find(ps, other)
  {
    var r := ps[..k] + ps[k + 1..];
    CutShifts(ps, k, r);
    match Position(ps, other)
    case None =>
      assert forall i :: 0 <= i < |r| ==> r[i].id != other;
    case Some(j) =>
      var j' := if j < k then j else j - 1;
      assert r[j'] == ps[j];
      RemovalKeepsIdsAscending(ps, k);
      PositionUnique(r, other, j');
  }

  /** A removed player is no longer found; every other player still is, and
      the table keeps its order and loses exactly that one row. */
  lemma RemovalIsLocal(ps: seq<Player>, id: int, other: int)
    requires IdsAscending(ps)
    ensures Find(Without(ps, id), id).None?
    ensures other != id ==> Find(Without(ps, id), other) == Find(ps, other)
    ensures Find(ps, id).Some? ==> |Without(ps, id)| == |ps| - 1
    ensures Find(ps, id).None? ==> Without(ps, id) == ps
  {
    match Position(ps, id)
    case None =>
      WithoutNowhere(ps, id);
    case Some(k) =>
      WithoutAt(ps, id, k);
      if other != id {
        FindAfterCut(ps, k, other);
      }
  }
}
