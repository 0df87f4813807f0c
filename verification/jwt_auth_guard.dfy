/** The bearer-token guard: takes the second space-separated field of the
    Authorization header as the token and admits the request when it verifies,
    attaching the token's payload as the request's user. */
module JwtAuthGuard {
  import opened Wrappers
  import opened Strings
  import opened Identity

  /** The guard's verdict and the `request.user` it leaves behind. */
  datatype Outcome = Outcome(allowed: bool, user: Option<Payload>)

  /** `headers.authorization?.split(" ")[1]`: the scheme word is not inspected. */
  function ExtractToken(authorization: Option<string>): Option<string> {
    match authorization
    case None => None
    case Some(h) =>
      var fields := Split(h, ' ');
      if |fields| > 1 then Some(fields[1]) else None
  }

  function CanActivate(authorization: Option<string>, verify: string -> Option<Payload>): (r: Outcome)
    ensures r.allowed <==> r.user.Some?
    ensures authorization.None? ==> !r.allowed
    ensures ExtractToken(authorization) in {None, Some("")} ==> !r.allowed
    ensures r.allowed <==>
      exists t :: ExtractToken(authorization) == Some(t) && t != "" && verify(t).Some?
    ensures r.allowed ==> r.user == verify(ExtractToken(authorization).value)
  {
    match ExtractToken(authorization)
    case None => Outcome(false, None)
    case Some(token) =>
      if token == "" then Outcome(false, None)
      else
        match verify(token)
        case None => Outcome(false, None)
        case Some(payload) => Outcome(true, Some(payload))
  }

  /** `h` is `<scheme> <token>` followed by nothing or by a space and anything. */
  ghost predicate HeaderShape(h: string, scheme: string, token: string, rest: string) {
    && ' ' !in scheme && ' ' !in token
    && (rest == "" || rest[0] == ' ')
    && h == scheme + " " + token + rest
  }

  /** A header shaped `<scheme> <token>[ <anything>]` yields `<token>`, whatever the
      scheme and whatever follows the token. */
  lemma TokenIsSecondField(h: string, scheme: string, token: string, rest: string)
    requires HeaderShape(h, scheme, token, rest)
    ensures ExtractToken(Some(h)) == Some(token)
  {
    if rest == "" {
      assert h == Join([scheme, token], ' ');
      SplitJoin([scheme, token], ' ');
    } else {
      var tail := Split(rest[1..], ' ');
      var fields := [scheme, token] + tail;
      assert fields[1..] == [token] + tail;
      assert fields[1..][1..] == tail;
      assert Join(fields, ' ') == scheme + " " + (token + " " + Join(tail, ' '));
      assert rest == " " + rest[1..];
      assert h == Join(fields, ' ');
      SplitJoin(fields, ' ');
    }
  }

  /** Conversely every extracted token arises that way. */
  lemma ExtractedTokenShape(h: string, token: string)
    requires ExtractToken(Some(h)) == Some(token)
    ensures exists scheme, rest :: HeaderShape(h, scheme, token, rest)
  {
    var fields := Split(h, ' ');
    var scheme := fields[0];
    var tail := fields[1..];
    assert tail[0] == token;
    assert h == scheme + " " + Join(tail, ' ');
    var rest := if |tail| == 1 then "" else " " + Join(tail[1..], ' ');
    assert Join(tail, ' ') == token + rest;
    assert HeaderShape(h, scheme, token, rest);
  }

  /** A header without a space carries no token. */
  lemma NoSpaceNoToken(h: string)
    requires ' ' !in h
    ensures ExtractToken(Some(h)) == None
    ensures !CanActivate(Some(h), (t: string) => None).allowed
  {
  }

  /** "Bearer " and "Bearer  x" have an empty second field and are refused
      whatever `verify` would say. */
  lemma EmptySecondFieldRefused(verify: string -> Option<Payload>)
    ensures !CanActivate(Some("Bearer "), verify).allowed
    ensures !CanActivate(Some("Bearer  x"), verify).allowed
  {
    TokenIsSecondField("Bearer ", "Bearer", "", "");
    TokenIsSecondField("Bearer  x", "Bearer", "", " x");
  }
}
