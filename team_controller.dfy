/**
 * The team handlers: create a team, list the caller's teams, look teams up
 * by owner e-mail or id, add and remove members, and list a team's matches.
 */
module TeamController {
  import opened Wrappers
  import opened Store
  import opened Http
  import opened Ordering

  /** The jersey number the owner of a new team receives. */
  const OWNER_JERSEY := 10

  const CREATE_TEAM_ERROR := "Erro ao criar time."
  const EMAIL_REQUIRED := "Informe o email para busca."
  const USER_NOT_FOUND := "Usuário não encontrado."
  const TEAM_NOT_FOUND := "Time não encontrado."
  const ALREADY_MEMBER := "Usuário já é membro deste time."
  const ADD_MEMBER_ERROR := "Erro ao adicionar membro."
  const MEMBER_REMOVED := "Membro removido com sucesso."
  const REMOVE_MEMBER_ERROR := "Erro ao remover membro."

  /**
   * POST /teams: inserts the team with the caller as owner and, in the same
   * write, the caller's membership with the owner's jersey number. The store
   * rejects the write when the id is taken, when the caller is not a stored
   * user, or for a reason outside this model (`fault`); nothing is written then.
   */
  method CreateTeam(db: Db, caller: Id, name: string, colorHex: string, newId: Id, fault: Option<string>)
    returns (reply: Reply<Team>)
    requires db.Valid()
    modifies db`teams, db`teamMembers
    ensures db.Valid()
    ensures reply.status == CREATED <==> newId !in old(db.teams) && caller in db.users && fault.None?
    ensures reply.status == CREATED ==>
      && reply.body == Data(Team(newId, name, colorHex, caller))
      && (newId, caller) !in old(db.teamMembers)
      && db.teams == old(db.teams)[newId := Team(newId, name, colorHex, caller)]
      && db.teamMembers == old(db.teamMembers)[(newId, caller) := TeamMember(newId, caller, Some(OWNER_JERSEY))]
    ensures reply.status != CREATED ==>
      && reply == Reply(INTERNAL_ERROR, Failure(CREATE_TEAM_ERROR, None))
      && db.teams == old(db.teams)
      && db.teamMembers == old(db.teamMembers)
  {
    if newId in db.teams || caller !in db.users || fault.Some? {
      return Reply(INTERNAL_ERROR, Failure(CREATE_TEAM_ERROR, None));
    }
    var team := Team(newId, name, colorHex, caller);
    db.teams := db.teams[newId := team];
    db.teamMembers := db.teamMembers[(newId, caller) := TeamMember(newId, caller, Some(OWNER_JERSEY))];
    reply := Reply(CREATED, Data(team));
  }

  /** A membership row, keyed by (team_id, user_id), links the user to the team. */
  predicate IsMember(members: map<(Id, Id), TeamMember>, teamId: Id, userId: Id) {
    (teamId, userId) in members
  }

  /** `_count.team_members`: the number of membership rows of the team. */
  ghost function MemberCount(members: map<(Id, Id), TeamMember>, teamId: Id): nat {
    |set k | k in members && k.0 == teamId|
  }

  /** `findMany({ where: { owner_id } })`: every team the user owns, once each. */
  ghost function OwnedTeams(teams: map<Id, Team>, userId: Id): (r: seq<Team>)
    ensures forall t :: multiset(r)[t] == if t in teams.Values && t.ownerId == userId then 1 else 0
  {
    SetToSeq(set t | t in teams.Values && t.ownerId == userId)
  }

  /** Every team the user is a member of but does not own, once each. */
  ghost function JoinedTeams(teams: map<Id, Team>, members: map<(Id, Id), TeamMember>, userId: Id): (r: seq<Team>)
    ensures forall t :: multiset(r)[t] ==
                        (if t in teams.Values && t.ownerId != userId && IsMember(members, t.id, userId) then 1 else 0)
  {
    SetToSeq(set t | t in teams.Values && t.ownerId != userId && IsMember(members, t.id, userId))
  }

  datatype TeamRole = Owner | Member

  /** A team as GET /teams/my lists it: the row, its member count and the caller's role. */
  datatype TeamSummary = TeamSummary(team: Team, memberCount: nat, role: TeamRole)

  /**
   * GET /teams/my: the teams the caller owns, tagged `Owner`, followed by the
   * teams the caller belongs to without owning them, tagged `Member`.
   */
  ghost function GetMyTeams(teams: map<Id, Team>, members: map<(Id, Id), TeamMember>, userId: Id): (r: seq<TeamSummary>)
    ensures |r| == |OwnedTeams(teams, userId)| + |JoinedTeams(teams, members, userId)|
    ensures forall i :: 0 <= i < |r| ==> (r[i].role == Owner <==> i < |OwnedTeams(teams, userId)|)
    ensures forall i :: 0 <= i < |r| ==>
      && r[i].memberCount == MemberCount(members, r[i].team.id)
      && (r[i].role == Owner ==> r[i].team.ownerId == userId)
      && (r[i].role == Member ==> r[i].team.ownerId != userId && IsMember(members, r[i].team.id, userId))
  {
    var owned := OwnedTeams(teams, userId);
    var joined := JoinedTeams(teams, members, userId);
    OwnedTeamsListed(teams, userId);
    JoinedTeamsListed(teams, members, userId);
    seq(|owned| + |joined|, i requires 0 <= i < |owned| + |joined| =>
      if i < |owned| then TeamSummary(owned[i], MemberCount(members, owned[i].id), Owner)
      else TeamSummary(joined[i - |owned|], MemberCount(members, joined[i - |owned|].id), Member))
  }

  lemma OwnedTeamsListed(teams: map<Id, Team>, userId: Id)
    ensures var owned := OwnedTeams(teams, userId);
      forall i :: 0 <= i < |owned| ==> owned[i].ownerId == userId
  {
    var owned := OwnedTeams(teams, userId);
    forall i | 0 <= i < |owned| ensures owned[i].ownerId == userId {
      assert owned[i] in multiset(owned);
    }
  }

  lemma JoinedTeamsListed(teams: map<Id, Team>, members: map<(Id, Id), TeamMember>, userId: Id)
    ensures var joined := JoinedTeams(teams, members, userId);
      forall i :: 0 <= i < |joined| ==> joined[i].ownerId != userId && IsMember(members, joined[i].id, userId)
  {
    var joined := JoinedTeams(teams, members, userId);
    forall i | 0 <= i < |joined| ensures joined[i].ownerId != userId && IsMember(members, joined[i].id, userId) {
      assert joined[i] in multiset(joined);
    }
  }

  /** The team rows of a GET /teams/my listing, in order. */
  function TeamsOf(r: seq<TeamSummary>): (ts: seq<Team>)
    ensures |ts| == |r| && forall i :: 0 <= i < |r| ==> ts[i] == r[i].team
  {
    seq(|r|, i requires 0 <= i < |r| => r[i].team)
  }

  /** GET /teams/my lists the owned teams in front of the joined ones. */
  lemma GetMyTeamsLayout(teams: map<Id, Team>, members: map<(Id, Id), TeamMember>, userId: Id)
    ensures TeamsOf(GetMyTeams(teams, members, userId)) == OwnedTeams(teams, userId) + JoinedTeams(teams, members, userId)
  {
  }

  /** Every team GET /teams/my lists is a stored team. */
  lemma GetMyTeamsStored(teams: map<Id, Team>, members: map<(Id, Id), TeamMember>, userId: Id)
    ensures var r := GetMyTeams(teams, members, userId);
      forall i :: 0 <= i < |r| ==> r[i].team in teams.Values
  {
    var listed := TeamsOf(GetMyTeams(teams, members, userId));
    GetMyTeamsLayout(teams, members, userId);
    forall i | 0 <= i < |listed| ensures listed[i] in teams.Values {
      assert listed[i] in multiset(listed);
    }
  }

  /** GET /teams/my lists every team the caller owns or belongs to. */
  lemma GetMyTeamsComplete(teams: map<Id, Team>, members: map<(Id, Id), TeamMember>, userId: Id, t: Team)
    requires t in teams.Values && (t.ownerId == userId || IsMember(members, t.id, userId))
    ensures var r := GetMyTeams(teams, members, userId);
      exists i :: 0 <= i < |r| && r[i].team == t
  {
    var listed := TeamsOf(GetMyTeams(teams, members, userId));
    GetMyTeamsLayout(teams, members, userId);
    assert t in multiset(listed);
    var i :| 0 <= i < |listed| && listed[i] == t;
  }

  /** GET /teams/my lists no team twice: not within a part, and not in both parts. */
  lemma GetMyTeamsNoRepeats(teams: map<Id, Team>, members: map<(Id, Id), TeamMember>, userId: Id)
    ensures var r := GetMyTeams(teams, members, userId);
      forall i, j :: 0 <= i < j < |r| ==> r[i].team != r[j].team
  {
    var listed := TeamsOf(GetMyTeams(teams, members, userId));
    GetMyTeamsLayout(teams, members, userId);
    var owned := OwnedTeams(teams, userId);
    var joined := JoinedTeams(teams, members, userId);
    forall t ensures multiset(listed)[t] <= 1 {
      assert multiset(listed)[t] == multiset(owned)[t] + multiset(joined)[t];
    }
    OnceEachIsDistinct(listed);
  }

  /**
   * getTeamsByUserEmail (mounted on no route): a missing or empty e-mail is
   * refused before any
   * lookup; an e-mail no user has gives 404; otherwise the teams that user owns.
   */
  ghost function GetTeamsByUserEmail(usersByEmail: map<string, Id>, teams: map<Id, Team>, email: Option<string>)
    : (reply: Reply<seq<Team>>)
    ensures email.None? || email == Some("") ==> reply == Reply(BAD_REQUEST, Failure(EMAIL_REQUIRED, None))
    ensures email.Some? && email.value != "" && email.value !in usersByEmail ==>
      reply == Reply(NOT_FOUND, Failure(USER_NOT_FOUND, None))
    ensures email.Some? && email.value != "" && email.value in usersByEmail ==>
      && reply.status == OK && reply.body.Data?
      && forall t :: multiset(reply.body.value)[t] ==
           if t in teams.Values && t.ownerId == usersByEmail[email.value] then 1 else 0
  {
    if email.None? || email.value == "" then Reply(BAD_REQUEST, Failure(EMAIL_REQUIRED, None))
    else if email.value !in usersByEmail then Reply(NOT_FOUND, Failure(USER_NOT_FOUND, None))
    else Reply(OK, Data(OwnedTeams(teams, usersByEmail[email.value])))
  }

  /** The user columns a member row is returned with. */
  datatype UserRef = UserRef(id: Id, name: string, email: string)

  datatype MemberDetail = MemberDetail(member: TeamMember, user: Option<UserRef>)

  datatype TeamDetail = TeamDetail(team: Team, members: seq<MemberDetail>, memberCount: nat)

  function UserRefOf(users: map<Id, User>, id: Id): Option<UserRef> {
    if id in users then Some(UserRef(users[id].id, users[id].name, users[id].email)) else None
  }

  function DetailOf(users: map<Id, User>, m: TeamMember): MemberDetail {
    MemberDetail(m, UserRefOf(users, m.userId))
  }

  /**
   * getTeam (mounted on no route): 404 for an unknown id; otherwise the stored team with each
   * of its membership rows, joined with the member's user columns, and their count.
   */
  ghost function GetTeam(teams: map<Id, Team>, members: map<(Id, Id), TeamMember>, users: map<Id, User>, id: Id)
    : (reply: Reply<TeamDetail>)
    ensures id !in teams ==> reply == Reply(NOT_FOUND, Failure(TEAM_NOT_FOUND, None))
    ensures id in teams ==>
      && reply.status == OK && reply.body.Data?
      && reply.body.value.team == teams[id]
      && reply.body.value.memberCount == |reply.body.value.members|
      && forall d :: multiset(reply.body.value.members)[d] ==
           if d.member in members.Values && d.member.teamId == id && d == DetailOf(users, d.member) then 1 else 0
  {
    if id !in teams then Reply(NOT_FOUND, Failure(TEAM_NOT_FOUND, None))
    else
      var rows := SetToSeq(set m | m in members.Values && m.teamId == id :: DetailOf(users, m));
      Reply(OK, Data(TeamDetail(teams[id], rows, |rows|)))
  }

  /** A new membership row as addTeamMember returns it, with the whole user row, password hash included. */
  datatype NewMember = NewMember(member: TeamMember, user: User)

  /**
   * addTeamMember (mounted on no route): looks the user up by e-mail,
   * refuses a pair that is already a member, and otherwise inserts exactly
   * that (team, user) pair without a jersey number. The insert fails when the team does not exist or
   * for a reason outside this model (`fault`).
   */
  method AddTeamMember(db: Db, teamId: Id, userEmail: Option<string>, fault: Option<string>)
    returns (reply: Reply<NewMember>)
    requires db.Valid()
    modifies db`teamMembers
    ensures db.Valid()
    ensures reply.status != CREATED ==> db.teamMembers == old(db.teamMembers)
    ensures userEmail.None? ==> reply == Reply(INTERNAL_ERROR, Failure(ADD_MEMBER_ERROR, None))
    ensures userEmail.Some? && userEmail.value !in db.usersByEmail ==>
      reply == Reply(NOT_FOUND, Failure(USER_NOT_FOUND, None))
    ensures userEmail.Some? && userEmail.value in db.usersByEmail ==>
      var userId := db.usersByEmail[userEmail.value];
      && ((teamId, userId) in old(db.teamMembers) ==> reply == Reply(BAD_REQUEST, Failure(ALREADY_MEMBER, None)))
      && ((teamId, userId) !in old(db.teamMembers) && (teamId !in db.teams || fault.Some?) ==>
            reply == Reply(INTERNAL_ERROR, Failure(ADD_MEMBER_ERROR, None)))
      && ((teamId, userId) !in old(db.teamMembers) && teamId in db.teams && fault.None? ==>
            && reply == Reply(CREATED, Data(NewMember(TeamMember(teamId, userId, None), db.users[userId])))
            && db.teamMembers == old(db.teamMembers)[(teamId, userId) := TeamMember(teamId, userId, None)])
  {
    if userEmail.None? {
      return Reply(INTERNAL_ERROR, Failure(ADD_MEMBER_ERROR, None));
    }
    if userEmail.value !in db.usersByEmail {
      return Reply(NOT_FOUND, Failure(USER_NOT_FOUND, None));
    }
    var userId := db.usersByEmail[userEmail.value];
    if (teamId, userId) in db.teamMembers {
      return Reply(BAD_REQUEST, Failure(ALREADY_MEMBER, None));
    }
    if teamId !in db.teams || fault.Some? {
      return Reply(INTERNAL_ERROR, Failure(ADD_MEMBER_ERROR, None));
    }
    var member := TeamMember(teamId, userId, None);
    db.teamMembers := db.teamMembers[(teamId, userId) := member];
    reply := Reply(CREATED, Data(NewMember(member, db.users[userId])));
  }

  /**
   * removeTeamMember (mounted on no route): deletes exactly the (team, user) row;
   * when there is none, or on any other store failure (`fault`), the delete
   * fails, the reply is 500 and nothing changes.
   */
  method RemoveTeamMember(db: Db, teamId: Id, userId: Id, fault: Option<string>) returns (reply: Reply<string>)
    requires db.Valid()
    modifies db`teamMembers
    ensures db.Valid()
    ensures (teamId, userId) in old(db.teamMembers) && fault.None? ==>
      && db.teamMembers == old(db.teamMembers) - {(teamId, userId)}
      && reply == Reply(OK, Data(MEMBER_REMOVED))
    ensures (teamId, userId) !in old(db.teamMembers) || fault.Some? ==>
      && db.teamMembers == old(db.teamMembers)
      && reply == Reply(INTERNAL_ERROR, Failure(REMOVE_MEMBER_ERROR, None))
  {
    if (teamId, userId) !in db.teamMembers || fault.Some? {
      return Reply(INTERNAL_ERROR, Failure(REMOVE_MEMBER_ERROR, None));
    }
    db.teamMembers := db.teamMembers - {(teamId, userId)};
    reply := Reply(OK, Data(MEMBER_REMOVED));
  }

  /** The team plays the match, at home or away. */
  predicate Involves(m: Match, teamId: Id) {
    m.homeTeamId == Some(teamId) || m.awayTeamId == Some(teamId)
  }

  /**
   * getTeamMatches (mounted on no route): every match the team plays, at home or away, once
   * each and joined with both teams, latest kick-off first.
   */
  ghost function GetTeamMatches(matches: map<Id, Match>, teams: map<Id, Team>, teamId: Id): (r: seq<MatchDetail>)
    ensures forall i, j :: 0 <= i < j < |r| ==> r[i].row.datetime >= r[j].row.datetime
    ensures forall d :: multiset(r)[d] ==
                        (if d.row in matches.Values && Involves(d.row, teamId) && d == WithTeams(teams, d.row) then 1 else 0)
  {
    var rows := SetToSeq(set m | m in matches.Values && Involves(m, teamId) :: WithTeams(teams, m));
    assert TotalPreorder(LatestFirst);
    var r := Sort(rows, LatestFirst);
    assert forall i, j :: 0 <= i < j < |r| ==> LatestFirst(r[i], r[j]);
    r
  }
}
