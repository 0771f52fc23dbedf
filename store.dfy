/**
 * The tables the handlers read and write, as one mutable store.
 *
 * Each table is a map from its primary key to its row; `team_members` and
 * `match_roster` are keyed by their composite keys (team, user) and
 * (match, user), so at most one row exists per pair. `match_events` is
 * append-only and kept in insertion order. `Valid` states what the
 * database's keys and foreign keys guarantee about the rows.
 */
module Store {
  import opened Wrappers

  /** Primary keys are UUID strings. */
  type Id = string

  /** A user row; `passwordHash` is the bcrypt hash stored at registration. */
  datatype User = User(id: Id, name: string, email: string, passwordHash: string, role: string)

  datatype Team = Team(id: Id, name: string, colorHex: string, ownerId: Id)

  datatype TeamMember = TeamMember(teamId: Id, userId: Id, jerseyNumber: Option<int>)

  datatype MatchStatus = PendingApproval | Scheduled | InProgress | Finished | Canceled

  /** A match; `datetime` is the scheduled instant as a number. */
  datatype Match = Match(
    id: Id,
    locationId: Option<Id>,
    homeTeamId: Option<Id>,
    awayTeamId: Option<Id>,
    datetime: int,
    status: MatchStatus,
    homeScore: int,
    awayScore: int,
    createdBy: Id)

  /** A player's entry for a match; `status` and `assignment` are free text columns. */
  datatype RosterEntry = RosterEntry(matchId: Id, userId: Id, status: string, assignment: Option<string>)

  datatype MatchEvent = MatchEvent(
    id: Id,
    matchId: Id,
    playerId: Id,
    assistPlayerId: Option<Id>,
    eventType: Option<string>,
    minute: int,
    details: Option<string>)

  /** A match with the two team rows its foreign keys point at (a Prisma `include`). */
  datatype MatchDetail = MatchDetail(row: Match, homeTeam: Option<Team>, awayTeam: Option<Team>)

  /** The row a nullable foreign key points at, if any. */
  function Lookup<V>(table: map<Id, V>, key: Option<Id>): (r: Option<V>)
  {
    if key.Some? && key.value in table then Some(table[key.value]) else None
  }

  function WithTeams(teams: map<Id, Team>, m: Match): MatchDetail {
    MatchDetail(m, Lookup(teams, m.homeTeamId), Lookup(teams, m.awayTeamId))
  }

  /** The order of `orderBy: { match_datetime: 'desc' }`. */
  predicate LatestFirst(a: MatchDetail, b: MatchDetail) {
    a.row.datetime >= b.row.datetime
  }

  /** The order of `orderBy: { match_datetime: 'asc' }`. */
  predicate EarliestFirst(a: MatchDetail, b: MatchDetail) {
    a.row.datetime <= b.row.datetime
  }

  /** `users` and its unique index on `user_email` agree. */
  ghost predicate EmailIndexed(users: map<Id, User>, byEmail: map<string, Id>) {
    && (forall e :: e in byEmail ==> byEmail[e] in users && users[byEmail[e]].email == e)
    && (forall id :: id in users ==> users[id].email in byEmail && byEmail[users[id].email] == id)
  }

  ghost predicate UsersKeyed(users: map<Id, User>) {
    forall id :: id in users ==> users[id].id == id
  }

  ghost predicate TeamsKeyed(teams: map<Id, Team>) {
    forall id :: id in teams ==> teams[id].id == id
  }

  /** Each membership row is stored under its own (team, user) pair, which references existing rows. */
  ghost predicate MembersKeyed(members: map<(Id, Id), TeamMember>, teams: map<Id, Team>, users: map<Id, User>) {
    forall k :: k in members ==>
      && members[k].teamId == k.0 && members[k].userId == k.1
      && k.0 in teams && k.1 in users
  }

  /** Each match is stored under its own id, and its team keys reference existing teams. */
  ghost predicate MatchesKeyed(matches: map<Id, Match>, teams: map<Id, Team>) {
    forall id :: id in matches ==>
      && matches[id].id == id
      && (matches[id].homeTeamId.Some? ==> matches[id].homeTeamId.value in teams)
      && (matches[id].awayTeamId.Some? ==> matches[id].awayTeamId.value in teams)
  }

  /** Each roster entry is stored under its own (match, user) pair, whose player is an existing user. */
  ghost predicate RosterKeyed(roster: map<(Id, Id), RosterEntry>, users: map<Id, User>) {
    forall k :: k in roster ==> roster[k].matchId == k.0 && roster[k].userId == k.1 && k.1 in users
  }

  /** Some event in the ledger has this id. */
  predicate EventIdTaken(events: seq<MatchEvent>, id: Id) {
    exists i :: 0 <= i < |events| && events[i].id == id
  }

  /** Event ids are distinct and each event references an existing match and existing users. */
  ghost predicate EventsReferenced(events: seq<MatchEvent>, matches: map<Id, Match>, users: map<Id, User>) {
    && (forall i, j :: 0 <= i < j < |events| ==> events[i].id != events[j].id)
    && (forall i :: 0 <= i < |events| ==>
          && events[i].matchId in matches
          && events[i].playerId in users
          && (events[i].assistPlayerId.Some? ==> events[i].assistPlayerId.value in users))
  }

  class Db {
    var users: map<Id, User>
    var usersByEmail: map<string, Id>
    var teams: map<Id, Team>
    var teamMembers: map<(Id, Id), TeamMember>
    var matches: map<Id, Match>
    var roster: map<(Id, Id), RosterEntry>
    var events: seq<MatchEvent>

    ghost predicate Valid()
      reads this
    {
      && UsersKeyed(users)
      && EmailIndexed(users, usersByEmail)
      && TeamsKeyed(teams)
      && MembersKeyed(teamMembers, teams, users)
      && MatchesKeyed(matches, teams)
      && RosterKeyed(roster, users)
      && EventsReferenced(events, matches, users)
    }

    /** An empty database. */
    constructor ()
      ensures Valid()
      ensures users == map[] && usersByEmail == map[] && teams == map[] && teamMembers == map[]
      ensures matches == map[] && roster == map[] && events == []
    {
      users, usersByEmail, teams, teamMembers := map[], map[], map[], map[];
      matches, roster, events := map[], map[], [];
    }
  }
}
