# futplan server: handlers and middlewares as a verified model

This project models the request handlers of the futplan server, a backend
for amateur football. Users form teams and schedule matches between them.
They keep a roster of who plays on which side, and record goals and cards
while a match runs. A bearer-token middleware guards every route except
registration and login. A second middleware, a gate on the caller's stored
role, is defined but mounted on no route. Five team handlers
(`getTeamsByUserEmail`, `getTeam`, `addTeamMember`, `removeTeamMember` and
`getTeamMatches`) are likewise defined but not routed; they are modelled
all the same, and are referred to by function name rather than by path.

The database is one `Store.Db` object. Its fields are the tables:
- users, with the unique e-mail index
- teams
- team members, keyed by (team, user)
- matches
- roster entries, keyed by (match, user)
- the append-only ledger of match events

`Db.Valid` states what the keys and foreign keys of those tables guarantee.
Every handler that writes is a method. It returns the HTTP status with the
JSON body, changes only the table it writes, and keeps `Valid`. Every
handler that only reads is a function of the tables. Its contract states
exactly which rows come back, once each, and in which order. The order is
built by an insertion sort (`Ordering.Sort`) over the column order the
query asks for.

Some values are chosen by the database or by code outside the model. They
are parameters:
- generated ids (`newId`)
- the token verifier (`verify`)
- any store failure the tables do not explain (`fault`), for example a lost
  connection or the database refusing an event for a closed match

## Model

| member | source | states |
|---|---|---|
| TeamController.CreateTeam | src/controllers/TeamController.ts:4-28 | 201 with a team owned by the caller, and exactly that team inserted with the caller as member wearing jersey 10. A rejected write (taken id, unknown caller, fault) replies 500 and changes neither table. |
| TeamController.GetMyTeams | src/controllers/TeamController.ts:36-66 | The owned teams are all tagged owner and come first. Every later entry is tagged member, is not owned by the caller and has the caller as member. Every entry carries its team's membership count. |
| TeamController.OwnedTeams | src/controllers/TeamController.ts:38-45 | Every team the user owns, each exactly once, and nothing else. |
| TeamController.JoinedTeams | src/controllers/TeamController.ts:47-59 | Every team the user is a member of without owning it, each exactly once, and nothing else. |
| TeamController.GetMyTeamsLayout | src/controllers/TeamController.ts:63-66 | The listing is the owned teams followed by the joined teams. |
| TeamController.GetMyTeamsStored | src/controllers/TeamController.ts:36-66 | Every listed team is a stored team. |
| TeamController.GetMyTeamsComplete | src/controllers/TeamController.ts:36-66 | Every stored team the caller owns or belongs to is listed. |
| TeamController.GetMyTeamsNoRepeats | src/controllers/TeamController.ts:46-52 | No team is listed twice. Excluding owned teams from the second query keeps the two parts apart. |
| TeamController.GetTeamsByUserEmail | src/controllers/TeamController.ts:75-96 | A missing or empty e-mail gives 400. An unknown e-mail gives 404. Otherwise 200 with exactly the teams that user owns, once each. |
| TeamController.GetTeam | src/controllers/TeamController.ts:103-130 | An unknown id gives 404. Otherwise 200 with the stored team, each of its membership rows exactly once joined with the member's user columns, and a count equal to the number of rows. |
| TeamController.AddTeamMember | src/controllers/TeamController.ts:136-176 | No e-mail gives 500. An unknown e-mail gives 404. An existing pair gives 400. A missing team or a fault gives 500. Otherwise exactly the (team, user) row is inserted, without a jersey number, and 201 is returned with the whole user row, password hash included. Every failure leaves the table unchanged. |
| TeamController.RemoveTeamMember | src/controllers/TeamController.ts:179-196 | An existing pair is deleted and nothing else, with 200, unless the store fails (`fault`). A missing pair or a store failure gives 500 and no change. |
| TeamController.GetTeamMatches | src/controllers/TeamController.ts:199-220 | Exactly the stored matches where the team plays home or away, once each, joined with both teams, latest kick-off first. |
| MatchController.InsertMatchError | src/controllers/MatchController.ts:10-14 | The insert is accepted exactly when the id is free, every given team key names a team, and there is no fault. |
| MatchController.ScheduledMatchReadBack | src/controllers/MatchController.ts:10-21 | The inserted row always passes the read-back filter, so the read-back finds a row. |
| MatchController.CreateMatch | src/controllers/MatchController.ts:4-34 | On success exactly one row is inserted, with status scheduled, created by the caller, even when an away team is given. The reply is 201 with some stored match that passes the (home, away, datetime) filter, joined with its teams. A rejected insert replies 500 with the store's message and leaves matches unchanged. A failed read-back replies 500 with its message after the new match has been stored. |
| MatchController.CreateMatchMayEchoAnother | src/controllers/MatchController.ts:17-28 | An earlier match with the same teams and kick-off is a different row that also passes the filter, so the reply need not be the new match. |
| MatchController.GetAllMatches | src/controllers/MatchController.ts:37-50 | Every stored match once, joined with its teams, earliest kick-off first. |
| MatchController.Timeline | src/controllers/MatchController.ts:75-82 | Exactly the match's events, each as often as in the ledger, in ascending minute order. |
| MatchController.GetMatchDashboard | src/controllers/MatchController.ts:53-90 | An unknown match gives 404. Otherwise 200 with the match and its teams, plus exactly that match's events with each player's name, in ascending minute order. |
| MatchController.ScoreLineRoundTrip | src/controllers/MatchController.ts:108-111 | The result text `<home> x <away>` reads back as the two scores, home first. |
| MatchController.FinishMatch | src/controllers/MatchController.ts:96-114 | A stored match gets status finished whatever its status was, with no check on who asks. Its scores and every other row are kept, and 200 reports the stored scores. An unknown match, or any other store failure (`fault`), gives 400 with the store's message as details and no change. |
| RosterController.RosterBeforeIsTotalPreorder | src/controllers/RosterController.ts:21-24 | The roster order (side ascending with unassigned last, then player name) ranks every pair and is transitive. |
| RosterController.GetMatchRoster | src/controllers/RosterController.ts:4-27 | Exactly the match's roster entries, once each, with the player's name and e-mail, in roster order. |
| RosterController.GetMatchRosterOnlyThatMatch | src/controllers/RosterController.ts:9-12 | Every listed entry is a stored entry of the requested match. |
| RosterController.GetMatchRosterComplete | src/controllers/RosterController.ts:9-12 | Every stored entry of the match is listed. |
| RosterController.GetMatchRosterNamed | src/controllers/RosterController.ts:13-20 | In a store whose roster references existing users, every listed entry carries its player's name and e-mail. |
| RosterController.UpdateRosterStatus | src/controllers/RosterController.ts:33-54 | Only the caller's own entry for the match changes, and only its status, set to whatever text was sent. 200 returns that row. With no such entry, or on any other store failure (`fault`), the reply is 400 with the store's message as details and the roster is unchanged. |
| RosterController.UpdatePlayerAssignment | src/controllers/RosterController.ts:57-85 | A side other than home or away gives 400 and no change. A missing entry or any other store failure (`fault`) gives 400 with the store's message as details and no change. Otherwise only that entry changes: its side becomes the given one and its status confirmed, and 200 names the side. |
| EventController.InsertEventError | src/controllers/EventController.ts:14-22 | The insert is accepted exactly when the event id is free, the match, player and any assisting player exist, and there is no fault. |
| EventController.ClassifyStoreError | src/controllers/EventController.ts:33-37 | A store message in which the closed-match phrase occurs at some position gives 403 Jogo Fechado. A message in which it occurs nowhere gives 500 with the message as details. |
| EventController.ClosedRefusalIsForbidden | src/controllers/EventController.ts:33-34 | Any message carrying the closed-match phrase anywhere is answered with 403. |
| EventController.CreateMatchEvent | src/controllers/EventController.ts:4-39 | A missing or empty user_id gives 400 and appends nothing. Otherwise exactly one event is appended, with that user as player and a falsy assist stored as none, and 201 is returned with it. A rejected insert appends nothing and is classified. Only the ledger is written. |
| Auth.Authenticate | src/middlewares/auth.ts:7-27 | A missing or empty header is refused as missing. Acceptance needs a header that splits into exactly two pieces. |
| Auth.MalformedIffNotOneSpace | src/middlewares/auth.ts:12-13 | A non-empty header is refused as malformed exactly when it does not hold exactly one space. |
| Auth.SchemeIsIgnored | src/middlewares/auth.ts:15-27 | Any two space-free words are decided by the verifier on the second word alone. The first word is never checked. |
| Auth.AcceptedHeaderShape | src/middlewares/auth.ts:12-23 | An accepted header is two space-free words, and the verifier accepts the second for the returned user. |
| Auth.AuthMiddleware | src/middlewares/auth.ts:7-27 | When accepted, the token's user id is set on the request and next is called. Otherwise the reply is 401 with the reason, next is not called, and the request is unchanged. |
| Role.CheckRole | src/middlewares/role.ts:5-24 | Passes exactly when the caller is a stored user whose role is listed. An unknown caller or an unlisted role gives 403. A request without a caller id makes the lookup fail with 500. |
| Role.NoRolesRefusesEveryone | src/middlewares/role.ts:14 | With an empty role list every caller is refused. |
| Role.MoreRolesAdmitMore | src/middlewares/role.ts:14-20 | Adding roles to the list never refuses a caller who passed before. |
| Role.SameRoleSameGate | src/middlewares/role.ts:14-20 | Two stored callers with the same role get the same decision. |
| Text.SplitJoin | src/middlewares/auth.ts:12 | Splitting a join of space-free pieces gives the pieces back, as `split(' ')` does. |
| Text.JoinSplit | src/middlewares/auth.ts:12 | Joining the pieces of `split(' ')` gives the header back. |
| Text.ContainsIffOccurs | src/controllers/EventController.ts:33 | `includes` holds exactly when the phrase occurs at some position. |
| Text.IntToStringRoundTrip | src/controllers/MatchController.ts:110 | The decimal text of a score reads back as the score. |
| Text.NullsLastLeIsTotalOrder | src/controllers/RosterController.ts:21-24 | Ascending text order with NULLs last is total, antisymmetric and transitive. |
| Ordering.Sort | src/controllers/TeamController.ts:215-217 | The sorted rows are ordered by the requested column and are a permutation of the input. |

## Left out

- The joined `locations` row, and the column subsets that the `select`s pick from joined teams and users. A match is joined with its full team rows. A roster entry is joined with its player's name and e-mail.
- The score trigger in the database. It keeps the scores and refuses events for a closed match. The model never derives a score. A refusal reaches the event handler only as a `fault` message.
- Connection and other store failures on reads. Each read handler's 500 reply (for example "Erro ao listar partidas.") is not modelled.
- Text collation. Text columns are ordered by code point.
- Rows with equal sort keys come back in an order the database chooses. The contracts promise only that the order is sorted.
- The parallel `Promise.all` in `getMyTeams` (GET /teams/my). Its two reads are modelled one after the other over the same state.
- Concurrency between requests, timestamps (`created_at`, `updated_at`), and logging.
- `new Date(...)` and `Number(...)` conversions. A kick-off time is taken as an already-converted number, and a minute as an already-parsed integer.
- Values of a type other than text in request bodies: numbers, booleans or objects where text is expected. An explicit `null` for a roster status is also not modelled; a left-out status keeps the old value.
- Auth.Authenticate: a token that verifies but carries no `userId` claim is not modelled. The verifier either yields a user id or rejects the token.
- The secret the verifier uses and the internals of JWT verification.
- CreateMatch: a new match's scores are taken as 0. The database schema, which sets the column defaults, is not part of this model.
- CreateMatch: a read-back that fails after the insert is given as `readFault`. What the store could report for it is not modelled.
- CreateMatch: the location reference is not checked against a locations table. A bad location is one of the `fault` cases.
- AddTeamMember: the new membership row's jersey number is taken as none. The source sets no jersey number, and the column default lives in the schema, which is not part of this model.
- CreateMatchEvent: the score trigger rewrites the scores of the event's match when an event is inserted. This model leaves every match row, scores included, unchanged, because it does not derive scores.
- CreateTeam, AddTeamMember, CreateMatch, CreateMatchEvent: when more than one constraint fails at once, the message the store would report first is a choice of this model.
- The route wiring and `listen` in src/server.ts (beyond naming the routes), the connection setup in src/database.ts, and the AuthController and LocationController files.
