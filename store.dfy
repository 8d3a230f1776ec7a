/** The player table and the handlers that change it (app.py): `add_player`,
    `batch_add`'s commit, `update_group`, `toggle_status` and `delete_player`.
    Each handler is one request; the table after the method is the table
    after its commit. */
module Store {
  import opened Roster
  import opened Batch

  /** Python truthiness of an optional form field: present and non-empty. */
  predicate Truthy(v: Option<string>) {
    v.Some? && v.value != ""
  }

  /** The rows a successful batch inserts, with consecutive ids from `start`:
      every one can fight and has no group or team. */
  function Enrol(ds: seq<Draft>, start: int): seq<Player> {
    seq(|ds|, i requires 0 <= i < |ds| => Player(start + i, ds[i].name, ds[i].job, true, None, None, ds[i].note))
  }

  /** Inserting a batch at the next id keeps ids ascending. */
  lemma EnrolKeepsIdsAscending(ps: seq<Player>, ds: seq<Draft>)
    requires IdsAscending(ps)
    ensures IdsAscending(ps + Enrol(ds, NextId(ps)))
  {
    var r := ps + Enrol(ds, NextId(ps));
    forall i, j | 0 <= i < j < |r| ensures r[i].id < r[j].id {
      if j >= |ps| && i < |ps| {
        assert r[i] == ps[i];
      }
    }
  }

  class PlayerStore {
    /** The rows of the `Player` table, in the order a query lists them. */
    var players: seq<Player>

    ghost predicate Valid()
      reads this
    {
      IdsAscending(players)
    }

    function Lookup(id: int): Option<Player>
      reads this
    {
      Find(players, id)
    }

    constructor ()
      ensures Valid() && players == []
    {
      players := [];
    }

    /** `add_player`: inserts one row with exactly the submitted fields. It
        can fight unless a non-empty `leave` was submitted; name and job are
        not checked, but a missing one violates their NOT NULL columns and
        nothing is stored. */
    method AddPlayer(name: Option<string>, job: Option<string>, leave: Option<string>,
                     groupName: Option<string>, teamName: Option<string>, roleNote: Option<string>)
      returns (r: Result<()>)
      requires Valid()
      modifies this
      ensures Valid()
      ensures name.None? || job.None? ==> r == Failure(NotNull) && players == old(players)
      ensures name.Some? && job.Some? ==>
        && r == Success(())
        && players == old(players) + [Player(NextId(old(players)), name.value, job.value, !Truthy(leave), groupName, teamName, roleNote)]
      ensures r.Success? ==>
        && Lookup(NextId(old(players))).Some?
        && Lookup(NextId(old(players))).value.canFight == !Truthy(leave)
    {
      if name.None? || job.None? {
        return Failure(NotNull);
      }
      var canFight := if Truthy(leave) then false else true;
      var id := NextId(players);
      var p := Player(id, name.value, job.value, canFight, groupName, teamName, roleNote);
      AppendKeepsIdsAscending(players, p);
      players := players + [p];
      PositionUnique(players, id, |players| - 1);
      r := Success(());
    }

    /** `batch_add`: parses the text, then commits the accepted lines' rows
        in line order, only when at least one line was accepted. */
    method BatchAdd(text: Option<string>) returns (added: nat, errors: seq<LineError>)
      requires Valid()
      modifies this
      ensures Valid()
      ensures var outs := Outcomes(BatchLines(FormText(text)));
        added == |Drafts(outs)| && errors == Errors(outs)
      ensures added == 0 ==> players == old(players)
      ensures added > 0 ==>
        players == old(players) + Enrol(Drafts(Outcomes(BatchLines(FormText(text)))), NextId(old(players)))
    {
      var lines := BatchLines(FormText(text));
      var drafts;
      added, drafts, errors := ParseBatch(lines);
      if added > 0 {
        EnrolKeepsIdsAscending(players, drafts);
        players := players + Enrol(drafts, NextId(players));
      }
    }

    /** `update_group`: overwrites the player's group, team and role note with
        the submitted values (an absent one becomes `None`). */
    method UpdateGroup(id: int, groupName: Option<string>, teamName: Option<string>, roleNote: Option<string>)
      returns (r: Result<()>)
      requires Valid()
      modifies this
      ensures Valid()
      ensures old(Lookup(id)).None? ==> r == Failure(NotFound) && players == old(players)
      ensures old(Lookup(id)).Some? ==>
        r == Success(()) && players == Modified(old(players), id, Assign(groupName, teamName, roleNote))
    {
      match Position(players, id)
      case None =>
        r := Failure(NotFound);
      case Some(k) =>
        ModifiedAt(players, id, Assign(groupName, teamName, roleNote), k);
        ModifiedKeepsIdsAscending(players, id, Assign(groupName, teamName, roleNote));
        players := players[k := players[k].(groupName := groupName, teamName := teamName, roleNote := roleNote)];
        r := Success(());
    }

    /** `toggle_status`: flips whether the player can fight and returns the
        new value. */
    method ToggleStatus(id: int) returns (r: Result<bool>)
      requires Valid()
      modifies this
      ensures Valid()
      ensures old(Lookup(id)).None? ==> r == Failure(NotFound) && players == old(players)
      ensures old(Lookup(id)).Some? ==>
        && r == Success(!old(Lookup(id)).value.canFight)
        && players == Modified(old(players), id, Toggle)
    {
      match Position(players, id)
      case None =>
        r := Failure(NotFound);
      case Some(k) =>
        ModifiedAt(players, id, Toggle, k);
        ModifiedKeepsIdsAscending(players, id, Toggle);
        players := players[k := players[k].(canFight := !players[k].canFight)];
        r := Success(players[k].canFight);
    }

    /** `delete_player`: removes the player's row, keeping the others in
        order. */
    method DeletePlayer(id: int) returns (r: Result<()>)
      requires Valid()
      modifies this
      ensures Valid()
      ensures old(Lookup(id)).None? ==> r == Failure(NotFound) && players == old(players)
      ensures old(Lookup(id)).Some? ==> r == Success(()) && players == Without(old(players), id)
      ensures Lookup(id).None?
    {
      match Position(players, id)
      case None =>
        r := Failure(NotFound);
      case Some(k) =>
        WithoutAt(players, id, k);
        RemovalKeepsIdsAscending(players, k);
        RemovalIsLocal(players, id, id);
        players := players[..k] + players[k + 1..];
        r := Success(());
    }
  }

  /** Toggling the same player in two requests restores the table. */
  method ToggleTwiceRestores(s: PlayerStore, id: int)
    requires s.Valid()
    modifies s
    ensures s.Valid() && s.players == old(s.players)
  {
    var first := s.ToggleStatus(id);
    var second := s.ToggleStatus(id);
    ToggleTwice(old(s.players), id);
    EditFindsEdited(old(s.players), id, Toggle);
  }
}
