/**
 * The `authenticate` middleware: it accepts only an `Authorization` header
 * that starts with "Bearer ", takes the token after it, verifies the token,
 * records the decoded email on the request, updates the user's last
 * activity, and then hands the request on with `next()`. Any failure ends
 * the request with status 401 instead.
 *
 * Token verification and the database update are opaque calls: each is a
 * function-valued parameter that either returns or throws.
 */
module Authenticate {
  import opened Js

  /** What `jwt.verify(token, secret)` did: returned a payload (whose `email` may be missing) or threw. */
  datatype Verified = Decoded(email: Option<string>) | VerifyThrew

  /** An observable step of the middleware, in the order it happens. */
  datatype Effect =
    | VerifyToken(token: string)
    | UpdateActivity(email: Option<string>, at: int)
    | Next
    | Reply(status: int, error: string)

  const MissingOrInvalid := "Missing or invalid token"
  const InvalidOrExpired := "Invalid or expired token"
  const Prefix := "Bearer "

  /** `authHeader && authHeader.startsWith("Bearer ")`. */
  predicate HeaderAccepted(header: Option<string>)
  {
    header.Some? && header.value != "" && StartsWith(header.value, Prefix)
  }

  lemma SplitBearer(header: string)
    requires StartsWith(header, Prefix)
    ensures Split(header, ' ') == ["Bearer"] + Split(header[|Prefix|..], ' ')
  {
    assert header == "Bearer" + [' '] + header[|Prefix|..];
    SplitAfterField("Bearer", ' ', header[|Prefix|..]);
  }

  /** `authHeader.split(" ")[1]`. */
  function Token(header: string): string
    requires StartsWith(header, Prefix)
  {
    SplitBearer(header);
    Split(header, ' ')[1]
  }

  /**
   * The token is the text after "Bearer " up to the next space or the end of
   * the header: a space-free prefix of the rest, followed by a space or nothing.
   */
  lemma TokenIsSecondField(header: string)
    requires StartsWith(header, Prefix)
    ensures var rest, t := header[|Prefix|..], Token(header);
      |t| <= |rest| && rest[..|t|] == t && ' ' !in t && (|t| == |rest| || rest[|t|] == ' ')
  {
    SplitBearer(header);
    var rest := header[|Prefix|..];
    var parts := Split(rest, ' ');
    var t := parts[0];
    assert t == Token(header);
    if |parts| == 1 {
      assert Join(parts, ' ') == t;
    } else {
      assert Join(parts, ' ') == t + [' '] + Join(parts[1..], ' ');
      assert rest[..|t|] == t;
      assert rest[|t|] == ' ';
    }
  }

  /** Whatever follows a further space is ignored. */
  lemma TokenIgnoresTail(t: string, tail: string)
    requires ' ' !in t
    ensures Token(Prefix + t + " " + tail) == t
  {
    var header := Prefix + t + " " + tail;
    assert header[|Prefix|..] == t + [' '] + tail;
    SplitBearer(header);
    SplitAfterField(t, ' ', tail);
  }

  /** A header that is exactly "Bearer " followed by a space-free token yields that token. */
  lemma TokenOfPlainHeader(t: string)
    requires ' ' !in t
    ensures Token(Prefix + t) == t
  {
    var header := Prefix + t;
    assert header[|Prefix|..] == t;
    SplitBearer(header);
  }

  /**
   * Everything `authenticate` does for a request with this header, given the
   * outcome of verifying each token, of the activity update, and the clock.
   */
  function Steps(header: Option<string>, verify: string -> Verified,
                 update: (Option<string>, int) -> bool, now: int): seq<Effect>
  {
    if !HeaderAccepted(header) then [Reply(401, MissingOrInvalid)]
    else
      var token := Token(header.value);
      match verify(token)
      case VerifyThrew => [VerifyToken(token), Reply(401, InvalidOrExpired)]
      case Decoded(email) =>
        if update(email, now) then [VerifyToken(token), UpdateActivity(email, now), Next]
        else [VerifyToken(token), UpdateActivity(email, now), Reply(401, InvalidOrExpired)]
  }

  /** The value `req.userEmail` holds afterwards; it is set as soon as verification succeeds. */
  function UserEmailAfter(header: Option<string>, verify: string -> Verified, before: Option<string>): Option<string>
  {
    if HeaderAccepted(header) && verify(Token(header.value)).Decoded? then verify(Token(header.value)).email
    else before
  }

  /** A missing, empty or non-"Bearer " header is refused before anything else happens. */
  lemma BadHeaderRejected(header: Option<string>, verify: string -> Verified,
                          update: (Option<string>, int) -> bool, now: int)
    requires header.None? || !StartsWith(header.value, Prefix)
    ensures Steps(header, verify, update, now) == [Reply(401, MissingOrInvalid)]
  {
  }

  /** A token that fails verification is refused, and nothing is updated. */
  lemma VerifyFailureRejected(header: string, verify: string -> Verified,
                              update: (Option<string>, int) -> bool, now: int)
    requires StartsWith(header, Prefix) && verify(Token(header)).VerifyThrew?
    ensures Steps(Some(header), verify, update, now) == [VerifyToken(Token(header)), Reply(401, InvalidOrExpired)]
  {
  }

  /** An activity update that throws is refused the same way; `next` is not called. */
  lemma UpdateFailureRejected(header: string, verify: string -> Verified,
                              update: (Option<string>, int) -> bool, now: int)
    requires StartsWith(header, Prefix) && verify(Token(header)).Decoded?
    requires !update(verify(Token(header)).email, now)
    ensures Next !in Steps(Some(header), verify, update, now)
    ensures Steps(Some(header), verify, update, now)[|Steps(Some(header), verify, update, now)| - 1]
         == Reply(401, InvalidOrExpired)
  {
  }

  /** The request goes on exactly when the header, the token and the update all succeed. */
  lemma NextIffAllSucceed(header: Option<string>, verify: string -> Verified,
                          update: (Option<string>, int) -> bool, now: int)
    ensures Next in Steps(header, verify, update, now) <==>
      HeaderAccepted(header) && verify(Token(header.value)).Decoded?
      && update(verify(Token(header.value)).email, now)
  {
  }

  /**
   * Every request ends in exactly one way, as the last step: `next()` or one
   * 401 reply; `next()` comes right after the update for the decoded email.
   */
  lemma ExactlyOneEnding(header: Option<string>, verify: string -> Verified,
                         update: (Option<string>, int) -> bool, now: int)
    ensures var s := Steps(header, verify, update, now);
      |s| >= 1 && (s[|s| - 1] == Next || s[|s| - 1].Reply?)
      && (forall i :: 0 <= i < |s| - 1 ==> s[i] != Next && !s[i].Reply?)
      && (s[|s| - 1] == Next ==> |s| >= 2 && s[|s| - 2] == UpdateActivity(verify(Token(header.value)).email, now))
  {
  }

  /**
   * `req.userEmail` is set exactly when the token verifies, to its email, before
   * the update is attempted, so a failed update still leaves it set; when the
   * request is handed on it holds the verified email.
   */
  lemma UserEmailOnSuccess(header: Option<string>, verify: string -> Verified,
                           update: (Option<string>, int) -> bool, now: int, before: Option<string>)
    ensures HeaderAccepted(header) && verify(Token(header.value)).Decoded? ==>
      var email := verify(Token(header.value)).email;
      UserEmailAfter(header, verify, before) == email
      && UpdateActivity(email, now) in Steps(header, verify, update, now)
    ensures !(HeaderAccepted(header) && verify(Token(header.value)).Decoded?) ==>
      UserEmailAfter(header, verify, before) == before
      && forall e :: e in Steps(header, verify, update, now) ==> !e.UpdateActivity? && e != Next
    ensures Next in Steps(header, verify, update, now) ==>
      HeaderAccepted(header) && verify(Token(header.value)).Decoded?
      && UserEmailAfter(header, verify, before) == verify(Token(header.value)).email
  {
  }

  /** The part of `req` the middleware reads and writes. */
  class Request {
    /** `req.headers.authorization`, `None` when absent. */
    const authorization: Option<string>
    /** `req.userEmail`. */
    var userEmail: Option<string>

    constructor (authorization: Option<string>)
      ensures this.authorization == authorization && userEmail == None
    {
      this.authorization := authorization;
      userEmail := None;
    }
  }

  /** `authenticate(req, res, next)`: the effects it performs, and the request it leaves. */
  method Run(req: Request, verify: string -> Verified, update: (Option<string>, int) -> bool, now: int)
    returns (effects: seq<Effect>)
    modifies req
    ensures effects == Steps(req.authorization, verify, update, now)
    ensures req.userEmail == UserEmailAfter(req.authorization, verify, old(req.userEmail))
  {
    var authHeader := req.authorization;
    if authHeader.None? || authHeader.value == "" || !StartsWith(authHeader.value, Prefix) {
      return [Reply(401, MissingOrInvalid)];
    }
    var token := Token(authHeader.value);
    effects := [VerifyToken(token)];
    var decoded := verify(token);
    if decoded.VerifyThrew? {
      return effects + [Reply(401, InvalidOrExpired)];
    }
    req.userEmail := decoded.email;
    effects := effects + [UpdateActivity(decoded.email, now)];
    if !update(decoded.email, now) {
      return effects + [Reply(401, InvalidOrExpired)];
    }
    effects := effects + [Next];
  }
}
