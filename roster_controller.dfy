/**
 * The roster handlers: list a match's roster, let a player set their own
 * presence, and put a player on the home or away side.
 */
module RosterController {
  import opened Wrappers
  import opened Store
  import opened Http
  import opened Ordering
  import opened Text

  const PRESENCE_UPDATED := "Presença atualizada!"
  const PRESENCE_ERROR := "Erro ao atualizar presença."
  const SIDE_REQUIRED := "O time deve ser 'home' ou 'away'."
  const ASSIGNMENT_ERROR := "Erro ao definir time do jogador."
  const CONFIRMED := "confirmed"

  /** A roster entry with the name and e-mail of its player. */
  datatype RosterDetail = RosterDetail(entry: RosterEntry, userName: Option<string>, userEmail: Option<string>)

  function RosterDetailOf(users: map<Id, User>, e: RosterEntry): RosterDetail {
    if e.userId in users then RosterDetail(e, Some(users[e.userId].name), Some(users[e.userId].email))
    else RosterDetail(e, None, None)
  }

  /**
   * The order of `orderBy: [{ team_assignment: 'asc' }, { users: { user_name: 'asc' } }]`:
   * by side first, unassigned players last, then by player name.
   */
  predicate RosterBefore(a: RosterDetail, b: RosterDetail) {
    if a.entry.assignment != b.entry.assignment then NullsLastLe(a.entry.assignment, b.entry.assignment)
    else NullsLastLe(a.userName, b.userName)
  }

  /** The roster order ranks every pair of entries, consistently. */
  lemma RosterBeforeIsTotalPreorder()
    ensures TotalPreorder(RosterBefore)
  {
    NullsLastLeIsTotalOrder();
  }

  /**
   * GET /matches/:match_id/roster: every roster entry of the match, once
   * each and with its player's name and e-mail, in roster order.
   */
  ghost function GetMatchRoster(roster: map<(Id, Id), RosterEntry>, users: map<Id, User>, matchId: Id): (r: seq<RosterDetail>)
    ensures forall i, j :: 0 <= i < j < |r| ==> RosterBefore(r[i], r[j])
    ensures forall d :: multiset(r)[d] ==
                        (if d.entry in roster.Values && d.entry.matchId == matchId && d == RosterDetailOf(users, d.entry) then 1 else 0)
  {
    var rows := SetToSeq(set e | e in roster.Values && e.matchId == matchId :: RosterDetailOf(users, e));
    RosterBeforeIsTotalPreorder();
    Sort(rows, RosterBefore)
  }

  /** The roster of a match holds entries of that match only. */
  lemma GetMatchRosterOnlyThatMatch(roster: map<(Id, Id), RosterEntry>, users: map<Id, User>, matchId: Id)
    ensures var r := GetMatchRoster(roster, users, matchId);
      forall i :: 0 <= i < |r| ==> r[i].entry.matchId == matchId && r[i].entry in roster.Values
  {
    var r := GetMatchRoster(roster, users, matchId);
    forall i | 0 <= i < |r| ensures r[i].entry.matchId == matchId && r[i].entry in roster.Values {
      assert r[i] in multiset(r);
    }
  }

  /** The roster of a match holds every stored entry of that match. */
  lemma GetMatchRosterComplete(roster: map<(Id, Id), RosterEntry>, users: map<Id, User>, matchId: Id, key: (Id, Id))
    requires key in roster && roster[key].matchId == matchId
    ensures var r := GetMatchRoster(roster, users, matchId);
      exists i :: 0 <= i < |r| && r[i].entry == roster[key]
  {
    var r := GetMatchRoster(roster, users, matchId);
    var d := RosterDetailOf(users, roster[key]);
    assert d in multiset(r);
    var i :| 0 <= i < |r| && r[i] == d;
  }

  /** In a consistent store every listed entry carries its player's name and e-mail. */
  lemma GetMatchRosterNamed(roster: map<(Id, Id), RosterEntry>, users: map<Id, User>, matchId: Id)
    requires RosterKeyed(roster, users)
    ensures var r := GetMatchRoster(roster, users, matchId);
      forall i :: 0 <= i < |r| ==>
        && r[i].userName == Some(users[r[i].entry.userId].name)
        && r[i].userEmail == Some(users[r[i].entry.userId].email)
  {
    var r := GetMatchRoster(roster, users, matchId);
    forall i | 0 <= i < |r|
      ensures r[i].entry.userId in users && r[i] == RosterDetailOf(users, r[i].entry)
    {
      assert r[i] in multiset(r);
      var k :| k in roster && roster[k] == r[i].entry;
    }
  }

  /** What a successful roster update replies with: a message and the updated row. */
  datatype RosterChange = RosterChange(message: string, entry: RosterEntry)

  /**
   * PATCH /matches/:match_id/roster: sets the status of the caller's
   * own entry for the match to whatever text was sent (a left-out status
   * keeps the old one) and replies with the row; every other entry and
   * every other column stay as they were. Without such an entry, or on any
   * other store failure (`fault`), the update fails with 400, the message as
   * details, and nothing changes.
   */
  method UpdateRosterStatus(db: Db, matchId: Id, caller: Id, status: Option<string>, fault: Option<string>)
    returns (reply: Reply<RosterChange>)
    requires db.Valid()
    modifies db`roster
    ensures db.Valid()
    ensures (matchId, caller) in old(db.roster) && fault.None? ==>
      var before := old(db.roster)[(matchId, caller)];
      var after := before.(status := status.GetOr(before.status));
      && db.roster == old(db.roster)[(matchId, caller) := after]
      && reply == Reply(OK, Data(RosterChange(PRESENCE_UPDATED, after)))
    ensures (matchId, caller) !in old(db.roster) ==>
      && db.roster == old(db.roster)
      && reply == Reply(BAD_REQUEST, Failure(PRESENCE_ERROR, Some(RECORD_NOT_FOUND)))
    ensures (matchId, caller) in old(db.roster) && fault.Some? ==>
      && db.roster == old(db.roster)
      && reply == Reply(BAD_REQUEST, Failure(PRESENCE_ERROR, fault))
  {
    var key := (matchId, caller);
    if key !in db.roster {
      return Reply(BAD_REQUEST, Failure(PRESENCE_ERROR, Some(RECORD_NOT_FOUND)));
    }
    if fault.Some? {
      return Reply(BAD_REQUEST, Failure(PRESENCE_ERROR, fault));
    }
    var before := db.roster[key];
    var after := before.(status := status.GetOr(before.status));
    db.roster := db.roster[key := after];
    reply := Reply(OK, Data(RosterChange(PRESENCE_UPDATED, after)));
  }

  /** `['home', 'away'].includes(side)`. */
  predicate IsSide(side: Option<string>) {
    side == Some("home") || side == Some("away")
  }

  /**
   * PATCH /matches/:match_id/roster/:user_id/assign: refuses any side
   * other than 'home' or 'away' with 400; otherwise puts the player on that
   * side, confirms them and replies with the row, leaving every other entry
   * as it was. Without an entry for the pair, or on any other store failure
   * (`fault`), the update fails with 400, the message as details, and
   * nothing changes.
   */
  method UpdatePlayerAssignment(db: Db, matchId: Id, userId: Id, side: Option<string>, fault: Option<string>)
    returns (reply: Reply<RosterChange>)
    requires db.Valid()
    modifies db`roster
    ensures db.Valid()
    ensures !IsSide(side) ==>
      && db.roster == old(db.roster)
      && reply == Reply(BAD_REQUEST, Failure(SIDE_REQUIRED, None))
    ensures IsSide(side) && (matchId, userId) !in old(db.roster) ==>
      && db.roster == old(db.roster)
      && reply == Reply(BAD_REQUEST, Failure(ASSIGNMENT_ERROR, Some(RECORD_NOT_FOUND)))
    ensures IsSide(side) && (matchId, userId) in old(db.roster) && fault.Some? ==>
      && db.roster == old(db.roster)
      && reply == Reply(BAD_REQUEST, Failure(ASSIGNMENT_ERROR, fault))
    ensures IsSide(side) && (matchId, userId) in old(db.roster) && fault.None? ==>
      var after := old(db.roster)[(matchId, userId)].(assignment := side, status := CONFIRMED);
      && db.roster == old(db.roster)[(matchId, userId) := after]
      && reply == Reply(OK, Data(RosterChange("Jogador definido como " + side.value + " com sucesso!", after)))
  {
    if !IsSide(side) {
      return Reply(BAD_REQUEST, Failure(SIDE_REQUIRED, None));
    }
    var key := (matchId, userId);
    if key !in db.roster {
      return Reply(BAD_REQUEST, Failure(ASSIGNMENT_ERROR, Some(RECORD_NOT_FOUND)));
    }
    if fault.Some? {
      return Reply(BAD_REQUEST, Failure(ASSIGNMENT_ERROR, fault));
    }
    var after := db.roster[key].(assignment := side, status := CONFIRMED);
    db.roster := db.roster[key := after];
    reply := Reply(OK, Data(RosterChange("Jogador definido como " + side.value + " com sucesso!", after)));
  }
}
