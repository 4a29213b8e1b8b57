/**
 * The bearer-token gate in front of the task routes. Token verification
 * (signature, expiry, format) is a parameter: it either fails or yields the
 * token's validity flag and its claims.
 */
module Auth {
  import opened Text

  /** A JSON value as decoded into a claim; `JNull` is also what a missing key reads as. */
  datatype Json = JNull | JBool(b: bool) | JNumber(n: int) | JString(s: string) | JOther

  /** The claims of a parsed token: a plain claim map or some other claims type. */
  datatype Claims = MapClaims(fields: map<string, Json>) | OtherClaims

  /** What the verification library reports for a token string. */
  datatype Verdict = ParseError | Parsed(valid: bool, claims: Claims)

  /** The decision: refuse with a 401 body, or admit with the request's `user_id`. */
  datatype Decision = Refused(status: int, message: string) | Admitted(userId: Json)

  /**
   * The middleware's full effect on one request: either the 401 JSON reply,
   * or the handler's own reply together with the `user_id` it was run with.
   */
  datatype Exchange<R> = Replied(status: int, body: map<string, string>) | Handled(userId: Json, reply: R)

  const StatusUnauthorized: int := 401
  const Bearer: string := "Bearer "

  /** `claims["sub"]` on a claim map: the value, or null when absent. */
  function Subject(fields: map<string, Json>): (j: Json)
    ensures "sub" in fields ==> j == fields["sub"]
    ensures "sub" !in fields ==> j == JNull
  {
    if "sub" in fields then fields["sub"] else JNull
  }

  /**
   * The decision `AuthMiddleware` takes for an `Authorization` header: a
   * missing or non-`Bearer ` header, a failed or invalid token, and claims
   * that are not a map each get their own 401; otherwise the request is
   * admitted with the `sub` claim as its user id.
   */
  function Decide(header: string, verify: string -> Verdict): (d: Decision)
    ensures d.Refused? ==> d.status == StatusUnauthorized
    ensures !HasPrefix(header, Bearer) ==> d == Refused(StatusUnauthorized, "missing or invalid token")
    ensures HasPrefix(header, Bearer) ==>
              var v := verify(header[|Bearer|..]);
              && (v.ParseError? || !v.valid ==> d == Refused(StatusUnauthorized, "unauthorized"))
              && (v.Parsed? && v.valid && v.claims.OtherClaims? ==> d == Refused(StatusUnauthorized, "invalid token claims"))
              && (v.Parsed? && v.valid && v.claims.MapClaims? ==> d == Admitted(Subject(v.claims.fields)))
  {
    if header == "" || !HasPrefix(header, Bearer) then Refused(StatusUnauthorized, "missing or invalid token")
    else
      var token := TrimPrefix(header, Bearer);
      match verify(token)
      case ParseError => Refused(StatusUnauthorized, "unauthorized")
      case Parsed(valid, claims) =>
        if !valid then Refused(StatusUnauthorized, "unauthorized")
        else match claims
          case OtherClaims => Refused(StatusUnauthorized, "invalid token claims")
          case MapClaims(fields) => Admitted(Subject(fields))
  }

  /**
   * `AuthMiddleware` wrapped around `next`: a refusal replies 401 with an
   * `error` body and never runs `next`; an admission runs `next` once, with
   * `user_id` set, and returns its reply.
   */
  function AuthMiddleware<R>(header: string, verify: string -> Verdict, next: Json -> R): (x: Exchange<R>)
    ensures x.Replied? <==> Decide(header, verify).Refused?
    ensures x.Replied? ==> x.status == StatusUnauthorized
                           && x.body == map["error" := Decide(header, verify).message]
    ensures x.Handled? ==> x.userId == Decide(header, verify).userId && x.reply == next(x.userId)
  {
    match Decide(header, verify)
    case Refused(status, message) => Replied(status, map["error" := message])
    case Admitted(userId) => Handled(userId, next(userId))
  }

  /** Admission happens exactly when the bearer token verifies and carries a claim map. */
  lemma AdmittedIff(header: string, verify: string -> Verdict)
    ensures Decide(header, verify).Admitted? <==>
              && HasPrefix(header, Bearer)
              && verify(TrimPrefix(header, Bearer)).Parsed?
              && verify(TrimPrefix(header, Bearer)).valid
              && verify(TrimPrefix(header, Bearer)).claims.MapClaims?
  {
  }

  /** Without the `Bearer ` prefix the verifier is never consulted: any verifier gives the same refusal. */
  lemma NoPrefixIgnoresVerifier(header: string, v1: string -> Verdict, v2: string -> Verdict)
    requires !HasPrefix(header, Bearer)
    ensures Decide(header, v1) == Decide(header, v2)
    ensures Decide(header, v1).Refused?
  {
  }

  /** The token handed to the verifier is what follows one `Bearer ` prefix, whatever it holds. */
  lemma TokenIsHeaderTail(token: string, verify: string -> Verdict)
    ensures Decide(Bearer + token, verify) == Decide(Bearer + token, (s: string) => verify(token))
  {
    TrimPrefixOfConcat(Bearer, token);
  }

  /** The prefix is case-sensitive: a lower-case scheme is refused as a missing token. */
  lemma LowerCaseSchemeRefused(token: string, verify: string -> Verdict)
    ensures Decide("bearer " + token, verify) == Refused(StatusUnauthorized, "missing or invalid token")
  {
    assert ("bearer " + token)[0] != Bearer[0];
  }

  /** Only the first prefix is removed: "Bearer Bearer t" hands "Bearer t" to the verifier. */
  lemma OnlyOnePrefixRemoved(token: string, verify: string -> Verdict)
    ensures Decide(Bearer + (Bearer + token), verify) == Decide(Bearer + (Bearer + token), (s: string) => verify(Bearer + token))
  {
    TrimPrefixOfConcat(Bearer, Bearer + token);
  }
}
