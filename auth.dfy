/**
 * The bearer-token middleware: reads the Authorization header, cuts it at
 * spaces, expects exactly two pieces, and hands the second piece to the
 * token verifier. The verifier (signature and expiry checks under a secret)
 * is a parameter: it yields the user id the token carries, or nothing when
 * it rejects the token.
 */
module Auth {
  import opened Wrappers
  import opened Store
  import opened Http
  import opened Text

  const TOKEN_MISSING := "Token não enviado."
  const TOKEN_MALFORMED := "Erro no formato do token."
  const TOKEN_INVALID := "Token inválido ou expirado."

  datatype Verdict = Authenticated(userId: Id) | Rejected(error: string)

  /** The decision on a header: missing or empty, not two pieces, refused by the verifier, or accepted. */
  function Authenticate(header: Option<string>, verify: string -> Option<Id>): (v: Verdict)
    ensures header.None? || header.value == "" ==> v == Rejected(TOKEN_MISSING)
    ensures v.Authenticated? ==> header.Some? && |Split(header.value, ' ')| == 2
  {
    if header.None? || header.value == "" then Rejected(TOKEN_MISSING)
    else
      var parts := Split(header.value, ' ');
      if |parts| != 2 then Rejected(TOKEN_MALFORMED)
      else
        var token := parts[1];
        if verify(token).Some? then Authenticated(verify(token).value) else Rejected(TOKEN_INVALID)
  }

  /** A header is refused as malformed exactly when it does not hold exactly one space. */
  lemma MalformedIffNotOneSpace(header: string, verify: string -> Option<Id>)
    requires header != ""
    ensures Authenticate(Some(header), verify) == Rejected(TOKEN_MALFORMED) <==> Count(header, ' ') != 1
  {
  }

  /**
   * The first word is never looked at: any two words decide as the verifier
   * decides on the second, whether the first is "Bearer" or anything else.
   */
  lemma SchemeIsIgnored(scheme: string, token: string, verify: string -> Option<Id>)
    requires ' ' !in scheme && ' ' !in token
    ensures Authenticate(Some(scheme + " " + token), verify) ==
            if verify(token).Some? then Authenticated(verify(token).value) else Rejected(TOKEN_INVALID)
  {
    SplitAfterFirst(scheme, ' ', token);
    SplitWithoutSeparator(token, ' ');
    assert scheme + " " + token == scheme + [' '] + token;
  }

  /** An accepted header is two space-free words, the second of which the verifier accepts for that user. */
  lemma AcceptedHeaderShape(header: string, verify: string -> Option<Id>, userId: Id)
    requires Authenticate(Some(header), verify) == Authenticated(userId)
    ensures exists scheme, token ::
      && header == scheme + " " + token
      && ' ' !in scheme && ' ' !in token
      && verify(token) == Some(userId)
  {
    var parts := Split(header, ' ');
    JoinSplit(header, ' ');
    assert parts[1..] == [parts[1]];
    assert header == parts[0] + " " + parts[1];
  }

  /** The part of a request the middleware reads and writes. */
  class Request {
    var authorization: Option<string>
    var userId: Option<Id>

    constructor (authorization: Option<string>)
      ensures this.authorization == authorization && this.userId == None
    {
      this.authorization := authorization;
      this.userId := None;
    }
  }

  /**
   * authMiddleware: on an accepted token, puts the token's user id on the
   * request and calls next; otherwise answers 401 with the reason and
   * leaves the request as it was.
   */
  method AuthMiddleware(req: Request, verify: string -> Option<Id>) returns (gate: Gate)
    modifies req`userId
    ensures Authenticate(req.authorization, verify).Authenticated? ==>
      && gate == Next
      && req.userId == Some(Authenticate(req.authorization, verify).userId)
    ensures Authenticate(req.authorization, verify).Rejected? ==>
      && gate == Halt(UNAUTHORIZED, Authenticate(req.authorization, verify).error)
      && req.userId == old(req.userId)
  {
    var verdict := Authenticate(req.authorization, verify);
    match verdict {
      case Authenticated(id) =>
        req.userId := Some(id);
        gate := Next;
      case Rejected(error) =>
        gate := Halt(UNAUTHORIZED, error);
    }
  }
}
