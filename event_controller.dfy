/**
 * The event handler: records a goal, card or other event of a match by
 * appending it to the event ledger. The score itself is kept by the
 * database, which may also refuse the event for a match that is already
 * closed; that refusal reaches the handler only as an error message.
 */
module EventController {
  import opened Wrappers
  import opened Store
  import opened Http
  import opened Text

  const USER_REQUIRED := "O campo user_id é obrigatório."
  const EVENT_RECORDED := "Evento registrado! O placar foi atualizado automaticamente pelo banco."
  const MATCH_CLOSED := "Jogo Fechado"
  const MATCH_CLOSED_DETAILS := "Este jogo já foi apitado! Não é possível alterar o histórico."
  const EVENT_ERROR := "Erro ao registrar evento."

  /** The phrase the database's refusal for a closed match carries. */
  const CLOSED_MARKER := "partida já encerrada"

  /** A request-body text is falsy when it is left out or empty. */
  function Truthy(s: Option<string>): (r: Option<string>)
  {
    if s.Some? && s.value != "" then s else None
  }

  /** The event row the handler asks the store to insert. */
  function NewEvent(id: Id, matchId: Id, playerId: Id, assist: Option<Id>, eventType: Option<string>,
                    minute: int, description: Option<string>): MatchEvent {
    MatchEvent(id, matchId, playerId, Truthy(assist), eventType, minute, description)
  }

  /**
   * Why the store rejects the insert, if it does: a taken id, a match,
   * player or assisting player that does not exist, or a reason outside this
   * model (`fault`), such as the refusal for a closed match.
   */
  function InsertEventError(events: seq<MatchEvent>, matches: map<Id, Match>, users: map<Id, User>,
                            e: MatchEvent, fault: Option<string>): (err: Option<string>)
    ensures err.None? <==>
      && !EventIdTaken(events, e.id)
      && e.matchId in matches && e.playerId in users
      && (e.assistPlayerId.Some? ==> e.assistPlayerId.value in users)
      && fault.None?
  {
    if EventIdTaken(events, e.id) then Some(UNIQUE_VIOLATION)
    else if e.matchId !in matches || e.playerId !in users || (e.assistPlayerId.Some? && e.assistPlayerId.value !in users) then
      Some(FOREIGN_KEY_VIOLATION)
    else fault
  }

  /**
   * The reply for a store error: 403 when the message carries the
   * closed-match phrase somewhere, 500 with the message as details otherwise.
   */
  function ClassifyStoreError<T>(message: string): (reply: Reply<T>)
    ensures (exists i :: OccursAt(message, CLOSED_MARKER, i)) ==>
      reply == Reply(FORBIDDEN, Failure(MATCH_CLOSED, Some(MATCH_CLOSED_DETAILS)))
    ensures (forall i :: !OccursAt(message, CLOSED_MARKER, i)) ==>
      reply == Reply(INTERNAL_ERROR, Failure(EVENT_ERROR, Some(message)))
  {
    ContainsIffOccurs(message, CLOSED_MARKER);
    if Contains(message, CLOSED_MARKER) then Reply(FORBIDDEN, Failure(MATCH_CLOSED, Some(MATCH_CLOSED_DETAILS)))
    else Reply(INTERNAL_ERROR, Failure(EVENT_ERROR, Some(message)))
  }

  /** Any message that carries the closed-match phrase somewhere is answered with 403. */
  lemma ClosedRefusalIsForbidden<T>(prefix: string, suffix: string)
    ensures ClassifyStoreError<T>(prefix + CLOSED_MARKER + suffix).status == FORBIDDEN
  {
    var message := prefix + CLOSED_MARKER + suffix;
    assert message[|prefix|..|prefix| + |CLOSED_MARKER|] == CLOSED_MARKER;
    assert OccursAt(message, CLOSED_MARKER, |prefix|);
  }

  /** What a recorded event replies with. */
  datatype EventRecorded = EventRecorded(message: string, event: MatchEvent)

  /**
   * POST /matches/:match_id/events: refuses a left-out or empty user_id with
   * 400; otherwise appends one event whose player is that user, with a
   * falsy assisting player stored as none, and replies 201 with it. The
   * handler never writes a match row, so the scores are whatever the
   * database keeps. A rejected insert appends nothing and is answered by
   * `ClassifyStoreError`.
   */
  method CreateMatchEvent(db: Db, matchId: Id, userId: Option<Id>, assist: Option<Id>, eventType: Option<string>,
                          minute: int, description: Option<string>, newId: Id, fault: Option<string>)
    returns (reply: Reply<EventRecorded>)
    requires db.Valid()
    modifies db`events
    ensures db.Valid()
    ensures Truthy(userId).None? ==>
      && db.events == old(db.events)
      && reply == Reply(BAD_REQUEST, Failure(USER_REQUIRED, None))
    ensures Truthy(userId).Some? ==>
      var e := NewEvent(newId, matchId, userId.value, assist, eventType, minute, description);
      var err := InsertEventError(old(db.events), db.matches, db.users, e, fault);
      && (err.None? ==> db.events == old(db.events) + [e] && reply == Reply(CREATED, Data(EventRecorded(EVENT_RECORDED, e))))
      && (err.Some? ==> db.events == old(db.events) && reply == ClassifyStoreError(err.value))
  {
    if Truthy(userId).None? {
      return Reply(BAD_REQUEST, Failure(USER_REQUIRED, None));
    }
    var e := NewEvent(newId, matchId, userId.value, assist, eventType, minute, description);
    var err := InsertEventError(db.events, db.matches, db.users, e, fault);
    if err.Some? {
      return ClassifyStoreError(err.value);
    }
    db.events := db.events + [e];
    reply := Reply(CREATED, Data(EventRecorded(EVENT_RECORDED, e)));
  }
}
