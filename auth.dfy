/** The two Express middlewares of `Backend/middleware/authMiddleware.js`.
    Token verification (`jwt.verify` with the server secret) is the parameter
    `verify`: `None` for a token it rejects, else the decoded payload. */
module Auth {
  import opened Wrappers
  import opened Strings

  /** The signed claims: the intern's or admin's `_id` and role. */
  datatype Payload = Payload(id: string, role: string)

  /** What a middleware does with the request. */
  datatype Outcome =
    | Reject(status: int, message: string)
    | Next(user: Payload)
    | Crash

  const NoToken := "Access Denied: No Token Provided"
  const BadToken := "Invalid Token"
  const Insufficient := "Access Denied: Insufficient Permissions"

  /** `req.headers.authorization?.split(' ')[1]`, with a falsy result
      (missing or empty) as `None`. */
  function Token(header: Option<string>): (t: Option<string>)
    ensures t.Some? ==> t.value != ""
  {
    match header
    case None => None
    case Some(h) =>
      match SplitPiece(h, " ", 1)
      case Some(w) => if w == "" then None else Some(w)
      case None => None
  }

  /** A header `scheme + " " + token` whose scheme has no space and whose
      token has no space yields that token. */
  lemma TokenOfBearer(scheme: string, token: string)
    requires Lacks(scheme, ' ') && Lacks(token, ' ') && token != ""
    ensures Token(Some(scheme + " " + token)) == Some(token)
  {
    forall k | 0 <= k < |scheme| ensures !OccursAt(scheme + " " + token, " ", k) {
      assert (scheme + " " + token)[k..k + 1] == [scheme[k]];
    }
    SplitAtFirst(scheme, " ", token);
    LacksNoOccurrence(token, ' ');
    SplitWithout(token, " ");
  }

  /** A header made of a single word, such as "Bearer", carries no token. */
  lemma TokenSingleWord(word: string)
    requires Lacks(word, ' ')
    ensures Token(Some(word)) == None
  {
    LacksNoOccurrence(word, ' ');
    SplitWithout(word, " ");
  }

  /** Nor does a header whose second word is empty: "Bearer " or, with two
      spaces, "Bearer  abc". */
  lemma TokenEmptySecondWord(word: string, rest: string)
    requires Lacks(word, ' ')
    requires rest == "" || rest[0] == ' '
    ensures Token(Some(word + " " + rest)) == None
  {
    forall k | 0 <= k < |word| ensures !OccursAt(word + " " + rest, " ", k) {
      assert (word + " " + rest)[k..k + 1] == [word[k]];
    }
    SplitAtFirst(word, " ", rest);
    if rest != "" {
      SplitAtFirst("", " ", rest[1..]);
      assert "" + " " + rest[1..] == rest;
    } else {
      SplitWithout(rest, " ");
    }
  }

  /** `authenticateJWT`: no token gives 403, a rejected token 403, else the
      request continues with the decoded user. */
  function Authenticate(header: Option<string>, verify: string -> Option<Payload>): (o: Outcome)
    ensures Token(header).None? ==> o == Reject(403, NoToken)
    ensures Token(header).Some? && verify(Token(header).value).None? ==> o == Reject(403, BadToken)
    ensures o.Next? <==> Token(header).Some? && verify(Token(header).value).Some?
    ensures o.Next? ==> o.user == verify(Token(header).value).value
    ensures !o.Crash?
  {
    match Token(header)
    case None => Reject(403, NoToken)
    case Some(t) =>
      match verify(t)
      case None => Reject(403, BadToken)
      case Some(p) => Next(p)
  }

  /** `roleAuthorization(roles)`: reading `req.user.role` without a user
      throws; a role outside `roles` gives 403; otherwise the request
      continues unchanged. */
  function Authorize(roles: seq<string>, user: Option<Payload>): (o: Outcome)
    ensures user.None? <==> o.Crash?
    ensures user.Some? ==> (o == Next(user.value) <==> user.value.role in roles)
    ensures user.Some? && user.value.role !in roles ==> o == Reject(403, Insufficient)
  {
    match user
    case None => Crash
    case Some(u) => if u.role in roles then Next(u) else Reject(403, Insufficient)
  }

  /** An Express request/response pair as the middlewares see it. */
  class Request {
    const header: Option<string>
    var user: Option<Payload>
    var status: Option<int>
    var message: string
    var nextCalls: nat

    constructor (header: Option<string>)
      ensures this.header == header && user.None? && status.None? && nextCalls == 0
    {
      this.header := header;
      user := None;
      status := None;
      message := "";
      nextCalls := 0;
    }

    /** `authenticateJWT(req, res, next)`: either answers 403, leaving
        `req.user` alone and not calling `next`, or sets `req.user` and calls
        `next` exactly once. */
    method AuthenticateJWT(verify: string -> Option<Payload>)
      modifies this
      ensures var o := Authenticate(header, verify);
        if o.Next? then
          user == Some(o.user) && nextCalls == old(nextCalls) + 1 && status == old(status)
          && message == old(message)
        else
          user == old(user) && nextCalls == old(nextCalls)
          && status == Some(o.status) && message == o.message
    {
      var token := Token(header);
      if token.None? {
        status, message := Some(403), NoToken;
        return;
      }
      var decoded := verify(token.value);
      if decoded.None? {
        status, message := Some(403), BadToken;
        return;
      }
      user := decoded;
      nextCalls := nextCalls + 1;
    }
  }
}
