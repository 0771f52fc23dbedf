/**
 * The match handlers: schedule a match, list all matches, show one match's
 * dashboard with its event timeline, and close a match.
 */
module MatchController {
  import opened Wrappers
  import opened Store
  import opened Http
  import opened Ordering
  import opened Text

  const SCHEDULE_ERROR := "Erro ao agendar partida via driver nativo."
  const MATCH_NOT_FOUND := "Partida não encontrada."
  const FINISH_ERROR := "Erro ao encerrar partida."
  const FINISHED_MESSAGE := "Fim de jogo! Partida encerrada com sucesso."

  /**
   * A request-body field as a query sees it: left out (`undefined`), an
   * explicit `null`, or a value. An insert stores both of the first two as
   * NULL, while a `where` drops a left-out field and matches NULL for `null`.
   */
  datatype Field<T> = Absent | Null | Given(value: T)

  /** The column value an insert stores for the field. */
  function Stored<T>(f: Field<T>): (r: Option<T>)
  {
    if f.Given? then Some(f.value) else None
  }

  /** The `where` condition of the field accepts the column value. */
  predicate Admits<T(==)>(f: Field<T>, column: Option<T>) {
    match f
    case Absent => true
    case Null => column.None?
    case Given(v) => column == Some(v)
  }

  /** The row `createMatch` (POST /matches) inserts: always 'scheduled', always created by the caller, scores at their default 0. */
  function ScheduledMatch(id: Id, caller: Id, home: Field<Id>, away: Field<Id>, location: Option<Id>, datetime: int): Match {
    Match(id, location, Stored(home), Stored(away), datetime, Scheduled, 0, 0, caller)
  }

  /** The `findFirst` filter POST /matches reads the new match back with. */
  predicate ReadBackFilter(m: Match, home: Field<Id>, away: Field<Id>, datetime: int) {
    Admits(home, m.homeTeamId) && Admits(away, m.awayTeamId) && m.datetime == datetime
  }

  /**
   * Why the store rejects the insert, if it does: a taken id, a team key
   * that references no team, or a reason outside this model (`fault`).
   */
  function InsertMatchError(matches: map<Id, Match>, teams: map<Id, Team>, home: Field<Id>, away: Field<Id>,
                            newId: Id, fault: Option<string>): (e: Option<string>)
    ensures e.None? <==>
      && newId !in matches
      && (home.Given? ==> home.value in teams)
      && (away.Given? ==> away.value in teams)
      && fault.None?
  {
    if newId in matches then Some(UNIQUE_VIOLATION)
    else if (home.Given? && home.value !in teams) || (away.Given? && away.value !in teams) then Some(FOREIGN_KEY_VIOLATION)
    else fault
  }

  /** The row an insert stores always satisfies the filter it is read back with. */
  lemma ScheduledMatchReadBack(id: Id, caller: Id, home: Field<Id>, away: Field<Id>, location: Option<Id>, datetime: int)
    ensures ReadBackFilter(ScheduledMatch(id, caller, home, away, location, datetime), home, away, datetime)
  {
  }

  /**
   * POST /matches: inserts a scheduled match created by the caller, then
   * replies 201 with the first stored match the filter (home, away,
   * datetime) finds, joined with its teams. The database picks that row, so
   * the reply is some stored match that passes the filter, not necessarily
   * the new one. A rejected insert changes nothing and replies 500 with the
   * store's message. The insert commits before the read-back runs, so a
   * read-back that fails (`readFault`) replies 500 with its message while the
   * new match stays stored.
   */
  method CreateMatch(db: Db, caller: Id, home: Field<Id>, away: Field<Id>, location: Option<Id>, datetime: int,
                     newId: Id, fault: Option<string>, readFault: Option<string>)
    returns (reply: Reply<MatchDetail>)
    requires db.Valid()
    modifies db`matches
    ensures db.Valid()
    ensures reply.status == CREATED <==>
      InsertMatchError(old(db.matches), db.teams, home, away, newId, fault).None? && readFault.None?
    ensures InsertMatchError(old(db.matches), db.teams, home, away, newId, fault).None? ==>
      db.matches == old(db.matches)[newId := ScheduledMatch(newId, caller, home, away, location, datetime)]
    ensures reply.status == CREATED ==>
      && reply.body.Data?
      && reply.body.value.row in db.matches.Values
      && ReadBackFilter(reply.body.value.row, home, away, datetime)
      && reply.body.value == WithTeams(db.teams, reply.body.value.row)
    ensures InsertMatchError(old(db.matches), db.teams, home, away, newId, fault).Some? ==>
      && db.matches == old(db.matches)
      && reply == Reply(INTERNAL_ERROR, Failure(SCHEDULE_ERROR, InsertMatchError(old(db.matches), db.teams, home, away, newId, fault)))
    ensures InsertMatchError(old(db.matches), db.teams, home, away, newId, fault).None? && readFault.Some? ==>
      reply == Reply(INTERNAL_ERROR, Failure(SCHEDULE_ERROR, readFault))
  {
    var error := InsertMatchError(db.matches, db.teams, home, away, newId, fault);
    if error.Some? {
      return Reply(INTERNAL_ERROR, Failure(SCHEDULE_ERROR, error));
    }
    var inserted := ScheduledMatch(newId, caller, home, away, location, datetime);
    db.matches := db.matches[newId := inserted];
    if readFault.Some? {
      return Reply(INTERNAL_ERROR, Failure(SCHEDULE_ERROR, readFault));
    }
    ScheduledMatchReadBack(newId, caller, home, away, location, datetime);
    assert db.matches[newId] == inserted;
    assert inserted in db.matches.Values && ReadBackFilter(inserted, home, away, datetime);
    var found :| found in db.matches.Values && ReadBackFilter(found, home, away, datetime);
    reply := Reply(CREATED, Data(WithTeams(db.teams, found)));
  }

  /**
   * An earlier match with the same teams and kick-off passes the read-back
   * filter too, so POST /matches may reply with that match instead of the
   * one it inserted.
   */
  lemma CreateMatchMayEchoAnother(matches: map<Id, Match>, teams: map<Id, Team>, earlier: Match, caller: Id,
                                  home: Field<Id>, away: Field<Id>, location: Option<Id>, datetime: int, newId: Id)
    requires MatchesKeyed(matches, teams)
    requires newId !in matches
    requires earlier in matches.Values && ReadBackFilter(earlier, home, away, datetime)
    ensures var inserted := ScheduledMatch(newId, caller, home, away, location, datetime);
      var after := matches[newId := inserted];
      && earlier != inserted
      && earlier in after.Values && ReadBackFilter(earlier, home, away, datetime)
      && inserted in after.Values && ReadBackFilter(inserted, home, away, datetime)
  {
    var inserted := ScheduledMatch(newId, caller, home, away, location, datetime);
    var after := matches[newId := inserted];
    var k :| k in matches && matches[k] == earlier;
    assert earlier.id == k;
    assert after[k] == earlier;
    assert after[newId] == inserted;
  }

  /** GET /matches: every stored match once, joined with its teams, earliest kick-off first. */
  ghost function GetAllMatches(matches: map<Id, Match>, teams: map<Id, Team>): (r: seq<MatchDetail>)
    ensures forall i, j :: 0 <= i < j < |r| ==> r[i].row.datetime <= r[j].row.datetime
    ensures forall d :: multiset(r)[d] == (if d.row in matches.Values && d == WithTeams(teams, d.row) then 1 else 0)
  {
    var rows := SetToSeq(set m | m in matches.Values :: WithTeams(teams, m));
    assert TotalPreorder(EarliestFirst);
    var r := Sort(rows, EarliestFirst);
    assert forall i, j :: 0 <= i < j < |r| ==> EarliestFirst(r[i], r[j]);
    r
  }

  /** An event with the name of the player who made it. */
  datatype EventDetail = EventDetail(event: MatchEvent, playerName: Option<string>)

  /** A match as its dashboard shows it: the match with its teams and its timeline. */
  datatype Dashboard = Dashboard(detail: MatchDetail, events: seq<EventDetail>)

  /** The `user_name` a player key points at, if any. */
  function NameOf(users: map<Id, User>, id: Id): (r: Option<string>)
  {
    if id in users then Some(users[id].name) else None
  }

  /** The order of `orderBy: { match_minute: 'asc' }`. */
  predicate EarlierMinute(a: MatchEvent, b: MatchEvent) {
    a.minute <= b.minute
  }

  /** The events of one match, from the earliest minute to the latest. */
  function Timeline(events: seq<MatchEvent>, matchId: Id): (r: seq<MatchEvent>)
    ensures forall i, j :: 0 <= i < j < |r| ==> r[i].minute <= r[j].minute
    ensures forall e :: multiset(r)[e] == if e.matchId == matchId then multiset(events)[e] else 0
  {
    assert TotalPreorder(EarlierMinute);
    var r := Sort(Filter(events, (e: MatchEvent) => e.matchId == matchId), EarlierMinute);
    assert forall i, j :: 0 <= i < j < |r| ==> EarlierMinute(r[i], r[j]);
    r
  }

  /** The bare events of a timeline, in order. */
  function EventsOf(ds: seq<EventDetail>): (es: seq<MatchEvent>)
  {
    seq(|ds|, i requires 0 <= i < |ds| => ds[i].event)
  }

  /**
   * GET /matches/:match_id/dashboard: 404 for an unknown match; otherwise
   * the match with its teams and every event of that match, each with its
   * player's name, ordered by minute.
   */
  function GetMatchDashboard(matches: map<Id, Match>, teams: map<Id, Team>, users: map<Id, User>,
                             events: seq<MatchEvent>, matchId: Id): (reply: Reply<Dashboard>)
    ensures matchId !in matches ==> reply == Reply(NOT_FOUND, Failure(MATCH_NOT_FOUND, None))
    ensures matchId in matches ==>
      && reply.status == OK && reply.body.Data?
      && reply.body.value.detail == WithTeams(teams, matches[matchId])
      && var timeline := reply.body.value.events;
      && (forall i, j :: 0 <= i < j < |timeline| ==> timeline[i].event.minute <= timeline[j].event.minute)
      && (forall i :: 0 <= i < |timeline| ==> timeline[i].playerName == NameOf(users, timeline[i].event.playerId))
      && (forall e :: multiset(EventsOf(timeline))[e] == if e.matchId == matchId then multiset(events)[e] else 0)
  {
    if matchId !in matches then Reply(NOT_FOUND, Failure(MATCH_NOT_FOUND, None))
    else
      var ordered := Timeline(events, matchId);
      var timeline := seq(|ordered|, i requires 0 <= i < |ordered| => EventDetail(ordered[i], NameOf(users, ordered[i].playerId)));
      assert EventsOf(timeline) == ordered;
      Reply(OK, Data(Dashboard(WithTeams(teams, matches[matchId]), timeline)))
  }

  /** What PATCH /matches/:match_id/finish replies with. */
  datatype FinishReport = FinishReport(message: string, result: string)

  /** The final score as the template `${home} x ${away}` writes it. */
  function ScoreLine(home: int, away: int): string {
    IntToString(home) + " x " + IntToString(away)
  }

  /** Reads a score line back into its two scores. */
  function ParseScoreLine(s: string): Option<(int, int)> {
    var parts := Split(s, ' ');
    if |parts| == 3 && parts[1] == "x" then Some((ParseInt(parts[0]), ParseInt(parts[2]))) else None
  }

  /** The score line of a finished match names both scores, home first. */
  lemma ScoreLineRoundTrip(home: int, away: int)
    ensures ParseScoreLine(ScoreLine(home, away)) == Some((home, away))
  {
    var parts := [IntToString(home), "x", IntToString(away)];
    assert Join(parts, ' ') == ScoreLine(home, away) by {
      assert Join(parts[2..], ' ') == IntToString(away);
      assert Join(parts[1..], ' ') == "x" + [' '] + IntToString(away);
    }
    IntToStringHasNoSpace(home);
    IntToStringHasNoSpace(away);
    SplitJoin(parts, ' ');
    IntToStringRoundTrip(home);
    IntToStringRoundTrip(away);
  }

  /**
   * PATCH /matches/:match_id/finish: sets the status of the match to
   * 'finished' whatever it was before and whoever asks, keeps its scores,
   * and reports them; an unknown match, or any other store failure
   * (`fault`), makes the update fail with 400 and the message as details.
   */
  method FinishMatch(db: Db, matchId: Id, fault: Option<string>) returns (reply: Reply<FinishReport>)
    requires db.Valid()
    modifies db`matches
    ensures db.Valid()
    ensures matchId in old(db.matches) && fault.None? ==>
      var m := old(db.matches)[matchId];
      && db.matches == old(db.matches)[matchId := m.(status := Finished)]
      && reply == Reply(OK, Data(FinishReport(FINISHED_MESSAGE, ScoreLine(m.homeScore, m.awayScore))))
    ensures matchId !in old(db.matches) ==>
      && db.matches == old(db.matches)
      && reply == Reply(BAD_REQUEST, Failure(FINISH_ERROR, Some(RECORD_NOT_FOUND)))
    ensures matchId in old(db.matches) && fault.Some? ==>
      && db.matches == old(db.matches)
      && reply == Reply(BAD_REQUEST, Failure(FINISH_ERROR, fault))
  {
    if matchId !in db.matches {
      return Reply(BAD_REQUEST, Failure(FINISH_ERROR, Some(RECORD_NOT_FOUND)));
    }
    if fault.Some? {
      return Reply(BAD_REQUEST, Failure(FINISH_ERROR, fault));
    }
    var finished := db.matches[matchId].(status := Finished);
    db.matches := db.matches[matchId := finished];
    assert db.matches.Keys == old(db.matches).Keys;
    reply := Reply(OK, Data(FinishReport(FINISHED_MESSAGE, ScoreLine(finished.homeScore, finished.awayScore))));
  }
}
